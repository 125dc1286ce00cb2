/** libc/string.cpp: printing numbers, comparing strings, expanding formats. */
module Text {
  import opened Words

  const NUL := '\0'

  // ---------------------------------------------------------------- decimal

  function DigitChar(d: nat): char
    requires d < 10
  {
    '0' + d as char
  }

  function DigitValue(c: char): int {
    c as int - '0' as int
  }

  function Digits(a: nat): (s: string)
    ensures |s| >= 1
  {
    (if a < 10 then "" else Digits(a / 10)) + [DigitChar(a % 10)]
  }

  function Parse(s: string): int {
    if s == "" then 0 else 10 * Parse(s[..|s| - 1]) + DigitValue(s[|s| - 1])
  }

  /** Decimal printing parses back to the number, with no leading zero but for 0 itself. */
  lemma {:induction false} DigitsRoundTrip(a: nat)
    ensures Parse(Digits(a)) == a
    ensures a > 0 ==> Digits(a)[0] != '0'
    ensures forall c <- Digits(a) :: '0' <= c <= '9'
  {
    assert Digits(a)[..|Digits(a)| - 1] == if a < 10 then "" else Digits(a / 10);
    if a >= 10 {
      DigitsRoundTrip(a / 10);
    } else {
      assert Digits(a) == [DigitChar(a)];
    }
  }

  /** n digits are enough for, and only for, the numbers below 10^n. */
  lemma {:induction false} DigitsLength(a: nat, n: nat)
    requires n > 0
    ensures |Digits(a)| <= n <==> a < Pow10(n)
  {
    if n > 1 && a >= 10 {
      DigitsLength(a / 10, n - 1);
    } else if n == 1 {
      assert Pow10(1) == 10 * Pow10(0);
      assert a >= 10 ==> |Digits(a)| == |Digits(a / 10)| + 1;
    } else {
      Pow10AtLeast(n);
    }
  }

  function Pow10(n: nat): nat {
    if n == 0 then 1 else 10 * Pow10(n - 1)
  }

  lemma {:induction false} Pow10AtLeast(n: nat)
    requires n > 0
    ensures Pow10(n) >= 10
  {
    if n > 1 {
      Pow10AtLeast(n - 1);
    } else {
      assert Pow10(1) == 10 * Pow10(0);
    }
  }

  /** A 32-bit int prints in at most 10 digits. */
  lemma TenDigitsSuffice(a: nat)
    requires a < 0x8000_0000
    ensures |Digits(a)| <= 10
  {
    DigitsLength(a, 10);
    assert Pow10(2) == 100 && Pow10(4) == 10_000 && Pow10(6) == 1_000_000;
    assert Pow10(8) == 100_000_000 && Pow10(10) == 10_000_000_000;
  }

  /** nb_digits */
  method NbDigits(a: int) returns (digits: nat)
    ensures digits == if a >= 0 then |Digits(a)| else 0
  {
    digits := 0;
    if a == 0 {
      return 1;
    }
    var number := a;
    while number > 0
      invariant a > 0 ==> number >= 0 && digits + (if number > 0 then |Digits(number)| else 0) == |Digits(a)|
      invariant a < 0 ==> number == a && digits == 0
      decreases number
    {
      digits := digits + 1;
      number := number / 10;
    }
  }

  /** What %d prints: nothing for a negative number. */
  function Decimal(a: int): string {
    if a >= 0 then Digits(a) else ""
  }

  /** The characters up to the terminator */
  predicate HoldsString(buffer: seq<char>, s: string) {
    |s| < |buffer| && buffer[..|s|] == s && buffer[|s|] == NUL
  }

  lemma Prepended(before: string, after: string, at: nat, end: nat, c: char)
    requires at < end <= |before| && after == before[at := c]
    ensures after[at..end] == [c] + before[at + 1..end]
  {
  }

  /** int2String */
  method Int2String(buffer: array<char>, number: int)
    requires buffer.Length == 16 && -0x8000_0000 <= number < 0x8000_0000
    modifies buffer
    ensures HoldsString(buffer[..], Decimal(number)) && (number < 0 ==> buffer[0] == '\0')
  {
    var digitsNumber := NbDigits(number);
    if number >= 0 {
      TenDigitsSuffice(number);
    }
    if number == 0 {
      buffer[0] := '0';
      buffer[1] := NUL;
      assert buffer[..1] == Digits(0);
      return;
    }
    buffer[digitsNumber] := NUL;
    var a, i := number, 0;
    while a > 0
      invariant i <= digitsNumber && digitsNumber - i == |Remaining(a)|
      invariant Remaining(a) + buffer[digitsNumber - i..digitsNumber] == Decimal(number)
      invariant buffer[digitsNumber] == NUL
      decreases a
    {
      DigitPut(a, buffer[digitsNumber - i..digitsNumber]);
      ghost var before := buffer[..];
      buffer[digitsNumber - 1 - i] := DigitChar(a % 10);
      Prepended(before, buffer[..], digitsNumber - 1 - i, digitsNumber, DigitChar(a % 10));
      a := a / 10;
      i := i + 1;
    }
  }

  /** The digits that the loop of int2String has not written yet */
  function Remaining(a: int): string {
    if a > 0 then Digits(a) else ""
  }

  lemma DigitPut(a: nat, done: string)
    requires a > 0
    ensures Remaining(a / 10) + ([DigitChar(a % 10)] + done) == Remaining(a) + done
    ensures |Remaining(a)| == |Remaining(a / 10)| + 1
  {
    assert Digits(a) == Remaining(a / 10) + [DigitChar(a % 10)];
  }

  // ---------------------------------------------------------------- hexadecimal

  const HEX := "0123456789ABCDEF"

  /** The sixteen digits: 0 to 9, then A to F. */
  lemma HexLetters(d: nat)
    requires d < 16
    ensures HEX[d] as int == if d < 10 then '0' as int + d else 'A' as int + (d - 10)
  {
  }

  function HexValue(c: char): int {
    if '0' <= c <= '9' then c as int - '0' as int else c as int - 'A' as int + 10
  }

  /** The last n hexadecimal digits of p */
  function HexDigits(p: nat, n: nat): (s: string)
    ensures |s| == n
  {
    if n == 0 then "" else HexDigits(p / 16, n - 1) + [HEX[p % 16]]
  }

  function ParseHex(s: string): int {
    if s == "" then 0 else 16 * ParseHex(s[..|s| - 1]) + HexValue(s[|s| - 1])
  }

  function Pow16(n: nat): nat {
    if n == 0 then 1 else 16 * Pow16(n - 1)
  }

  /** n digits hold p exactly when p is below 16^n. */
  lemma {:induction false} HexRoundTripIff(p: nat, n: nat)
    ensures 0 <= ParseHex(HexDigits(p, n)) < Pow16(n)
    ensures ParseHex(HexDigits(p, n)) == p <==> p < Pow16(n)
  {
    if n > 0 {
      HexRoundTripIff(p / 16, n - 1);
      LastHexDigit(p, n);
      AppendDigit(ParseHex(HexDigits(p / 16, n - 1)), p, Pow16(n - 1));
    }
  }

  lemma LastHexDigit(p: nat, n: nat)
    requires n > 0
    ensures ParseHex(HexDigits(p, n)) == 16 * ParseHex(HexDigits(p / 16, n - 1)) + p % 16
  {
    assert HexDigits(p, n)[..n - 1] == HexDigits(p / 16, n - 1);
    assert HexValue(HEX[p % 16]) == p % 16;
  }

  lemma AppendDigit(front: int, p: nat, limit: nat)
    requires 0 <= front < limit && (front == p / 16 <==> p / 16 < limit)
    ensures 0 <= 16 * front + p % 16 < 16 * limit
    ensures 16 * front + p % 16 == p <==> p < 16 * limit
  {
  }

  lemma EightHexDigits()
    ensures Pow16(8) == 0x1_0000_0000
  {
    assert Pow16(4) == 0x1_0000;
  }

  /** `p >> (4 * k)` */
  function ShiftedBy4(p: nat, k: nat): nat {
    if k == 0 then p else ShiftedBy4(p / 16, k - 1)
  }

  lemma {:induction false} HexDigitAt(p: nat, n: nat, k: nat)
    requires k < n
    ensures HexDigits(p, n)[n - 1 - k] == HEX[ShiftedBy4(p, k) % 16]
  {
    if k > 0 {
      HexDigitAt(p / 16, n - 1, k - 1);
    }
  }

  /** ptr_to_hex */
  method PtrToHex(buffer: array<char>, ptr: Word)
    requires buffer.Length == 11
    modifies buffer
    ensures HoldsString(buffer[..], "0x" + HexDigits(ptr, 8))
  {
    buffer[0] := '0';
    buffer[1] := 'x';
    for i := 0 to 8
      invariant buffer[0] == '0' && buffer[1] == 'x'
      invariant buffer[2..2 + i] == HexDigits(ptr, 8)[..i]
    {
      HexDigitAt(ptr, 8, 7 - i);
      buffer[2 + i] := HEX[ShiftedBy4(ptr, 7 - i) % 16];
    }
    buffer[10] := NUL;
    assert buffer[..10] == buffer[..2] + buffer[2..10];
  }

  // ---------------------------------------------------------------- strcmp

  /** Terminated strings in lexicographic order of their characters */
  predicate Less(s: string, t: string) {
    t != "" && (s == "" || s[0] < t[0] || (s[0] == t[0] && Less(s[1..], t[1..])))
  }

  /** strcmp of two terminated strings; the terminators are the NULs behind s and t. */
  method StrCmp(s: string, t: string) returns (r: int)
    requires NUL !in s && NUL !in t
    ensures r == 0 <==> s == t
    ensures r < 0 <==> Less(s, t)
    ensures r > 0 <==> Less(t, s)
  {
    var i := 0;
    while i < |s| && i < |t| && s[i] == t[i]
      invariant i <= |s| && i <= |t| && s[..i] == t[..i]
      invariant Less(s, t) == Less(s[i..], t[i..]) && Less(t, s) == Less(t[i..], s[i..])
    {
      i := i + 1;
    }
    var c := if i < |s| then s[i] else NUL;
    var d := if i < |t| then t[i] else NUL;
    r := c as int - d as int;
    assert s == s[..i] + s[i..] && t == t[..i] + t[i..];
  }

  // ---------------------------------------------------------------- the static buffers

  /** The characters up to the first NUL */
  function TextOf(buffer: seq<char>): (s: string)
    ensures NUL !in s && |s| <= |buffer|
  {
    if buffer == [] || buffer[0] == NUL then "" else [buffer[0]] + TextOf(buffer[1..])
  }

  lemma {:induction false} HeldText(buffer: seq<char>, s: string)
    requires HoldsString(buffer, s) && NUL !in s
    ensures TextOf(buffer) == s && NUL in buffer
  {
    if s != "" {
      assert s[0] in s && buffer[0] == buffer[..|s|][0];
      assert buffer[1..][..|s| - 1] == s[1..];
      HeldText(buffer[1..], s[1..]);
    } else {
      assert buffer[0] in buffer;
    }
  }

  lemma {:induction false} TextIsHeld(buffer: seq<char>)
    requires NUL in buffer
    ensures HoldsString(buffer, TextOf(buffer))
  {
    if buffer[0] != NUL {
      TextIsHeld(buffer[1..]);
      var n := |TextOf(buffer[1..])|;
      assert buffer[..n + 1] == [buffer[0]] + buffer[1..][..n];
    }
  }

  /** The static buffers of int2String and ptr_to_hex */
  datatype Buffer = DecimalBuffer | HexBuffer

  /** What the two buffers say */
  datatype Texts = Texts(decimal: string, hex: string) {
    function Of(b: Buffer): string {
      if b == DecimalBuffer then decimal else hex
    }
  }

  // ---------------------------------------------------------------- printk

  /** An argument; a string may be one of the static buffers, which is what int2String and ptr_to_hex return. */
  datatype Arg = Int(i: int) | Hex(p: Word) | Str(s: string) | Static(b: Buffer)

  /** An int of 32 bits, or a terminated string */
  predicate Printable(a: Arg) {
    (a.Int? ==> -0x8000_0000 <= a.i < 0x8000_0000) && (a.Str? ==> NUL !in a.s)
  }

  /** Whether the directive c takes the argument. */
  predicate Suits(c: char, a: Arg) {
    Printable(a) && match c
                    case 'd' => a.Int?
                    case 'x' => a.Hex?
                    case 's' => a.Str? || a.Static?
                    case _ => false
  }

  predicate TakesArgument(c: char) {
    c == 'd' || c == 'x' || c == 's'
  }

  /** The arguments are those the format asks for, and the format does not end in the middle of a directive. */
  predicate Matches(format: string, args: seq<Arg>)
    decreases |format|
  {
    if format == "" then
      true
    else if format[0] != '%' then
      Matches(format[1..], args)
    else if |format| >= 2 && TakesArgument(format[1]) then
      |args| > 0 && Suits(format[1], args[0]) && Matches(format[2..], args[1..])
    else
      |format| >= 2 && Matches(format[2..], args)
  }

  /** How many arguments the format asks for. */
  function Directives(format: string): nat
    decreases |format|
  {
    if format == "" then 0
    else if format[0] != '%' then Directives(format[1..])
    else if |format| < 2 then 0
    else Directives(format[2..]) + if TakesArgument(format[1]) then 1 else 0
  }

  /** The format with its directives replaced by texts */
  function Expand(format: string, texts: seq<string>): string
    requires Directives(format) <= |texts|
    decreases |format|
  {
    if format == "" then ""
    else if format[0] != '%' then [format[0]] + Expand(format[1..], texts)
    else if |format| < 2 then ""
    else if TakesArgument(format[1]) then texts[0] + Expand(format[2..], texts[1..])
    else [format[1]] + Expand(format[2..], texts)
  }

  /** The text of an argument, given what the buffers say. */
  function TextFor(a: Arg, t: Texts): string {
    match a
    case Int(i) => Decimal(i)
    case Hex(p) => "0x" + HexDigits(p, 8)
    case Str(s) => s
    case Static(b) => t.Of(b)
  }

  /**
   * A string is printed as it is; a number in decimal digits that say it, a negative one not at all; a pointer
   * as 0x and eight hexadecimal digits that say it; a static buffer as what it says.
   */
  lemma ArgumentTexts(s: string, i: int, p: Word, t: Texts)
    ensures TextFor(Str(s), t) == s
    ensures i < 0 ==> TextFor(Int(i), t) == ""
    ensures i >= 0 ==> TextFor(Int(i), t) != "" && Parse(TextFor(Int(i), t)) == i
    ensures var h := TextFor(Hex(p), t); |h| == 10 && h[0] == '0' && h[1] == 'x' && ParseHex(h[2..]) == p
    ensures TextFor(Static(DecimalBuffer), t) == t.decimal && TextFor(Static(HexBuffer), t) == t.hex
  {
    hide Pow16, ParseHex, HexDigits, Parse;
    if i >= 0 {
      DigitsRoundTrip(i);
    }
    HexRoundTripIff(p, 8);
    EightHexDigits();
    assert ("0x" + HexDigits(p, 8))[2..] == HexDigits(p, 8);
  }

  /** `%d`, `%x` and `%s` stand for the next text; a percent sign before any other character stands for it. */
  lemma DirectiveExpands(c: char, rest: string, text: string, texts: seq<string>)
    requires Directives(rest) <= |texts|
    ensures if c == 'd' || c == 'x' || c == 's' then
              Directives(['%', c] + rest) == Directives(rest) + 1
              && Expand(['%', c] + rest, [text] + texts) == text + Expand(rest, texts)
            else
              Directives(['%', c] + rest) == Directives(rest)
              && Expand(['%', c] + rest, texts) == [c] + Expand(rest, texts)
  {
    assert (['%', c] + rest)[2..] == rest && ([text] + texts)[1..] == texts;
  }

  /** The buffers after an argument has been printed: %d and %x leave their text there. */
  function After(a: Arg, t: Texts): Texts {
    match a
    case Int(i) => t.(decimal := Decimal(i))
    case Hex(p) => t.(hex := "0x" + HexDigits(p, 8))
    case _ => t
  }

  /** What the caller means: the texts of the arguments at the time of the call. */
  function Meant(args: seq<Arg>, t: Texts): (r: seq<string>)
    ensures |r| == |args|
  {
    seq(|args|, k requires 0 <= k < |args| => TextFor(args[k], t))
  }

  /** The texts that are printed, each at the time when its directive is reached. */
  function Shown(args: seq<Arg>, t: Texts): (r: seq<string>)
    ensures |r| == |args|
  {
    if args == [] then [] else [TextFor(args[0], t)] + Shown(args[1..], After(args[0], t))
  }

  function AfterAll(args: seq<Arg>, t: Texts): Texts {
    if args == [] then t else AfterAll(args[1..], After(args[0], t))
  }

  /** Whether printing the argument overwrites the buffer. */
  predicate Overwrites(a: Arg, b: Buffer) {
    (a.Int? && b == DecimalBuffer) || (a.Hex? && b == HexBuffer)
  }

  /** The last of the arguments before k that overwrites b, or -1. */
  function LastBefore(args: seq<Arg>, k: nat, b: Buffer): (j: int)
    requires k <= |args|
    ensures -1 <= j < k && (j >= 0 ==> Overwrites(args[j], b))
    ensures forall i :: j < i < k ==> !Overwrites(args[i], b)
  {
    if k == 0 then -1 else if Overwrites(args[k - 1], b) then k - 1 else LastBefore(args, k - 1, b)
  }

  /** An argument that is a static buffer comes before every %d or %x that writes other text there. */
  predicate Undisturbed(args: seq<Arg>, t: Texts) {
    forall k :: 0 <= k < |args| && args[k].Static? ==>
      var j := LastBefore(args, k, args[k].b); j >= 0 ==> TextFor(args[j], t) == t.Of(args[k].b)
  }

  lemma {:induction false} ShownAppend(args: seq<Arg>, a: Arg, t: Texts)
    ensures Shown(args + [a], t) == Shown(args, t) + [TextFor(a, AfterAll(args, t))]
    ensures AfterAll(args + [a], t) == After(a, AfterAll(args, t))
  {
    if args == [] {
      assert (args + [a])[1..] == [];
    } else {
      assert (args + [a])[1..] == args[1..] + [a];
      ShownAppend(args[1..], a, After(args[0], t));
    }
  }

  /** What a buffer says when argument k is reached: what was last written there. */
  lemma {:induction false} BufferAt(args: seq<Arg>, k: nat, b: Buffer, t: Texts)
    requires k <= |args|
    ensures var j := LastBefore(args, k, b);
            AfterAll(args[..k], t).Of(b) == if j >= 0 then TextFor(args[j], t) else t.Of(b)
  {
    if k > 0 {
      BufferAt(args, k - 1, b, t);
      assert args[..k] == args[..k - 1] + [args[k - 1]];
      ShownAppend(args[..k - 1], args[k - 1], t);
    } else {
      assert args[..0] == [];
    }
  }

  lemma {:induction false} ShownAt(args: seq<Arg>, k: nat, t: Texts)
    requires k < |args|
    ensures Shown(args, t)[k] == TextFor(args[k], AfterAll(args[..k], t))
  {
    if k == 0 {
      assert args[..0] == [];
    } else {
      ShownAt(args[1..], k - 1, After(args[0], t));
      assert args[..k][1..] == args[1..][..k - 1];
    }
  }

  /** Every directive prints what the caller meant exactly if no static buffer has other text by then. */
  lemma ShownAsMeantIff(args: seq<Arg>, t: Texts)
    ensures Shown(args, t) == Meant(args, t) <==> Undisturbed(args, t)
  {
    forall k | 0 <= k < |args|
      ensures Shown(args, t)[k] == Meant(args, t)[k] <==>
              (args[k].Static? ==>
                 var j := LastBefore(args, k, args[k].b); j >= 0 ==> TextFor(args[j], t) == t.Of(args[k].b))
    {
      ShownAt(args, k, t);
      if args[k].Static? {
        BufferAt(args, k, args[k].b, t);
      }
    }
  }

  /** `printk("%d %s", 5, int2String(7))` prints 5 twice. */
  lemma NumberPrintedTwice()
    ensures var args, t := [Int(5), Static(DecimalBuffer)], Texts("7", "");
            && Matches("%d %s", args) && !Undisturbed(args, t)
            && Expand("%d %s", Meant(args, t)) == "5 7"
            && Expand("%d %s", Shown(args, t)) == "5 5"
  {
    hide Expand, Directives;
    var args, t := [Int(5), Static(DecimalBuffer)], Texts("7", "");
    assert Decimal(5) == "5";
    assert args[1..] == [Static(DecimalBuffer)];
    assert Shown(args, t) == ["5", "5"] && Meant(args, t) == ["5", "7"];
    assert LastBefore(args, 1, DecimalBuffer) == 0;
    ExpandTwo("5", "7");
    ExpandTwo("5", "5");
    assert "%d %s"[2..] == " %s" && " %s"[1..] == "%s" && "%s"[2..] == "";
  }

  lemma ExpandTwo(a: string, b: string)
    ensures Directives("%d %s") == 2 && Expand("%d %s", [a, b]) == a + " " + b
  {
    assert "%d %s"[2..] == " %s" && " %s"[1..] == "%s" && "%s"[2..] == "";
    assert [a, b][1..] == [b];
    assert Expand("%s", [b]) == b + Expand("", []);
    assert Expand(" %s", [b]) == " " + Expand("%s", [b]);
  }

  /** `while (*a != 0) console_put_char(*a)` */
  method PutString(console: string, buffer: seq<char>, ghost s: string) returns (r: string)
    requires HoldsString(buffer, s) && NUL !in s
    ensures r == console + s
  {
    r := console;
    var i := 0;
    assert forall k :: 0 <= k < |s| ==> buffer[k] == buffer[..|s|][k] && buffer[..|s|][k] in s;
    while buffer[i] != NUL
      invariant i <= |s| && r == console + s[..i]
      decreases |s| - i
    {
      assert i != |s| && buffer[i] == buffer[..|s|][i];
      r := r + [buffer[i]];
      i := i + 1;
    }
  }

  lemma NoNulInDecimal(a: int)
    ensures NUL !in Decimal(a)
  {
    if a >= 0 {
      DigitsRoundTrip(a);
    }
  }

  lemma {:induction false} NoNulInHex(p: nat, n: nat)
    ensures NUL !in HexDigits(p, n)
  {
    if n > 0 {
      NoNulInHex(p / 16, n - 1);
    }
  }

  lemma {:induction false} MatchesTakes(format: string, args: seq<Arg>)
    requires Matches(format, args)
    ensures Directives(format) <= |args|
    decreases |format|
  {
    if format != "" {
      if format[0] != '%' {
        MatchesTakes(format[1..], args);
      } else if TakesArgument(format[1]) {
        MatchesTakes(format[2..], args[1..]);
      } else {
        MatchesTakes(format[2..], args);
      }
    }
  }

  /** One directive of a format. */
  lemma DirectiveStep(format: string, args: seq<Arg>, t: Texts)
    requires format != "" && format[0] == '%' && Matches(format, args)
    ensures |format| >= 2 && Directives(format) <= |args|
    ensures if TakesArgument(format[1]) then
              && |args| > 0 && Printable(args[0]) && Matches(format[2..], args[1..]) && Directives(format[2..]) <= |args| - 1
              && Directives(format) == Directives(format[2..]) + 1
              && Expand(format, Shown(args, t)) == TextFor(args[0], t) + Expand(format[2..], Shown(args[1..], After(args[0], t)))
            else
              && Matches(format[2..], args) && Directives(format[2..]) == Directives(format)
              && Expand(format, Shown(args, t)) == [format[1]] + Expand(format[2..], Shown(args, t))
  {
    MatchesTakes(format, args);
    if TakesArgument(format[1]) {
      assert Shown(args, t)[1..] == Shown(args[1..], After(args[0], t));
    }
  }

  lemma PlainStep(format: string, args: seq<Arg>, t: Texts)
    requires format != "" && format[0] != '%' && Matches(format, args)
    ensures Directives(format) <= |args| && Directives(format[1..]) == Directives(format)
    ensures Matches(format[1..], args) && Expand(format, Shown(args, t)) == [format[0]] + Expand(format[1..], Shown(args, t))
  {
    MatchesTakes(format, args);
  }

  lemma EmptyFormat(format: string, args: seq<Arg>, t: Texts)
    requires format == ""
    ensures Matches(format, args) && Directives(format) == 0 && Expand(format, Shown(args, t)) == ""
  {
  }

  /** printk and the two static buffers that it shares with its callers. */
  class Printer {
    const decimal: array<char>
    const hex: array<char>

    ghost predicate Valid()
      reads this, decimal, hex
    {
      decimal != hex && decimal.Length == 16 && hex.Length == 11 && NUL in decimal[..] && NUL in hex[..]
    }

    ghost function Now(): Texts
      reads this, decimal, hex
    {
      Texts(TextOf(decimal[..]), TextOf(hex[..]))
    }

    /** The statics are zero. */
    constructor ()
      ensures Valid() && Now() == Texts("", "") && fresh(decimal) && fresh(hex)
    {
      decimal := new char[16](_ => NUL);
      hex := new char[11](_ => NUL);
      new;
      assert decimal[0] in decimal[..] && hex[0] in hex[..];
    }

    /** The three directives of printk. */
    method PutArgument(console: string, a: Arg) returns (r: string)
      requires Valid() && Printable(a)
      modifies decimal, hex
      ensures Valid() && r == console + TextFor(a, old(Now())) && Now() == After(a, old(Now()))
    {
      hide TextOf, Decimal, HexDigits;
      match a
      case Int(i) =>
        Int2String(decimal, i);
        NoNulInDecimal(i);
        HeldText(decimal[..], Decimal(i));
        r := PutString(console, decimal[..], Decimal(i));
      case Hex(p) =>
        PtrToHex(hex, p);
        NoNulInHex(p, 8);
        HeldText(hex[..], "0x" + HexDigits(p, 8));
        r := PutString(console, hex[..], "0x" + HexDigits(p, 8));
      case Str(s) =>
        r := PutString(console, s + [NUL], s);
      case Static(b) =>
        TextIsHeld(decimal[..]);
        TextIsHeld(hex[..]);
        r := PutString(console, if b == DecimalBuffer then decimal[..] else hex[..], Now().Of(b));
    }

    /** printk; the console is what has been printed so far. */
    method Printk(format: string, args: seq<Arg>) returns (console: string)
      requires Valid() && NUL !in format && Matches(format, args)
      modifies decimal, hex
      ensures Valid() && Directives(format) <= |args|
      ensures console == Expand(format, Shown(args, old(Now())))
      ensures Now() == AfterAll(args[..Directives(format)], old(Now()))
      ensures Undisturbed(args, old(Now())) ==> console == Expand(format, Meant(args, old(Now())))
    {
      hide Matches, Expand, TextFor, Directives, Shown, After, AfterAll, Suits, Undisturbed, Meant, TextOf;
      MatchesTakes(format, args);
      ShownAsMeantIff(args, Now());
      console := "";
      var i, next := 0, 0;
      ghost var t := Now();
      NothingShown(args, t);
      assert args[..0] == [] && format[0..] == format && args[0..] == args;
      while i < |format|
        invariant i <= |format| && next <= |args| && Valid() && Now() == AfterAll(args[..next], t)
        invariant Matches(format[i..], args[next..]) && Directives(format[i..]) <= |args[next..]|
        invariant next + Directives(format[i..]) == Directives(format)
        invariant console + Expand(format[i..], Shown(args[next..], Now())) == Expand(format, Shown(args, t))
      {
        ghost var rest, left, now := format[i..], args[next..], Now();
        if format[i] == '%' {
          DirectiveStep(rest, left, now);
          assert rest[1] == format[i + 1] && rest[2..] == format[i + 2..];
          i := i + 1;
          if TakesArgument(format[i]) {
            NextArgument(args, next, t);
            console := PutArgument(console, args[next]);
            next := next + 1;
          } else {
            console := console + [format[i]];
          }
        } else {
          PlainStep(rest, left, now);
          assert rest[1..] == format[i + 1..];
          console := console + [format[i]];
        }
        i := i + 1;
      }
      EmptyFormat(format[i..], args[next..], Now());
    }
  }

  lemma NothingShown(args: seq<Arg>, t: Texts)
    ensures AfterAll([], t) == t
  {
  }

  lemma NextArgument(args: seq<Arg>, next: nat, t: Texts)
    requires next < |args|
    ensures args[next..][0] == args[next] && args[next..][1..] == args[next + 1..]
    ensures AfterAll(args[..next + 1], t) == After(args[next], AfterAll(args[..next], t))
  {
    assert args[..next + 1] == args[..next] + [args[next]];
    ShownAppend(args[..next], args[next], t);
  }

  /** A format without directives is printed as it is, whatever follows it. */
  lemma {:induction false} PlainTextPrintsItself(text: string, format: string, args: seq<Arg>, texts: seq<string>)
    requires '%' !in text && Matches(format, args) && |texts| >= Directives(format)
    ensures Matches(text + format, args) && Directives(text + format) == Directives(format)
    ensures Expand(text + format, texts) == text + Expand(format, texts)
  {
    hide Matches, Directives, Expand;
    if text == "" {
      assert text + format == format;
    } else {
      PlainTextPrintsItself(text[1..], format, args, texts);
      PlainCharacter(text[0], text[1..] + format, args, texts);
      assert [text[0]] + (text[1..] + format) == text + format;
      assert [text[0]] + (text[1..] + Expand(format, texts)) == text + Expand(format, texts);
    }
  }

  lemma PlainCharacter(c: char, rest: string, args: seq<Arg>, texts: seq<string>)
    requires c != '%' && Matches(rest, args) && |texts| >= Directives(rest)
    ensures Matches([c] + rest, args) && Directives([c] + rest) == Directives(rest)
    ensures Expand([c] + rest, texts) == [c] + Expand(rest, texts)
  {
    assert ([c] + rest)[1..] == rest;
  }

  /** Literal text, with every '%' doubled, comes out unchanged. */
  function Escape(text: string): string {
    if text == "" then "" else (if text[0] == '%' then "%%" else [text[0]]) + Escape(text[1..])
  }

  lemma {:induction false} EscapedTextRoundTrip(text: string)
    ensures Matches(Escape(text), []) && Directives(Escape(text)) == 0 && Expand(Escape(text), []) == text
  {
    if text != "" {
      EscapedTextRoundTrip(text[1..]);
      if text[0] == '%' {
        assert Escape(text)[2..] == Escape(text[1..]);
      } else {
        assert Escape(text)[1..] == Escape(text[1..]);
      }
    }
  }
}
