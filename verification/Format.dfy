/**
 Number printing in lib/format.c: from a value, a radix and the parsed conversion
 specification to characters.
 */
module Format {
  import opened Basics
  import Division

  datatype Flags = Flags(left: bool, zero: bool, upper: bool, leadingZero: bool, noPrefixOnZero: bool)

  datatype Number = Number(value: nat, radix: nat, flags: Flags, width: nat, precision: nat, prefix: nat, negative: bool) {
    predicate Ok() { 2 <= radix <= 16 && value < 0x1_0000_0000_0000_0000 && prefix <= 10 }
  }

  /** g_prefixes: offset 0 is the empty prefix, 1 and 4 the hexadecimal ones, 7 plus and 9 space. */
  const PREFIXES: string := "\0" + "0x" + "\0" + "0X" + "\0" + "+" + "\0" + " " + "\0"

  function PrefixAt(o: nat): (p: string)
    decreases |PREFIXES| - o
  {
    if o >= |PREFIXES| || PREFIXES[o] == '\0' then "" else [PREFIXES[o]] + PrefixAt(o + 1)
  }

  lemma {:induction false} Prefixes()
    ensures PrefixAt(0) == "" && PrefixAt(1) == "0x" && PrefixAt(4) == "0X" && PrefixAt(7) == "+" && PrefixAt(9) == " "
  {
    assert PrefixAt(3) == "" && PrefixAt(6) == "" && PrefixAt(8) == "" && PrefixAt(10) == "";
    assert PrefixAt(2) == "x" && PrefixAt(5) == "X";
  }

  // ---------- digits ----------

  function Pow(radix: nat, k: nat): nat { if k == 0 then 1 else Division.Times(radix, Pow(radix, k - 1)) }

  lemma {:induction false} PowNext(radix: nat, k: nat)
    requires k > 0
    ensures Pow(radix, k) == radix * Pow(radix, k - 1) && Pow(radix, 0) == 1
  {
    Division.TimesIsProduct(radix, Pow(radix, k - 1));
  }

  /** The k digits of a value below radix^k, most significant first. */
  function Digits(v: nat, radix: nat, k: nat): (s: seq<nat>)
    requires radix > 0
    ensures |s| == k
  {
    if k == 0 then [] else
      PowPositive(radix, k - 1);
      [Division.Quot(v, Pow(radix, k - 1))] + Digits(Division.Rem(v, Pow(radix, k - 1)), radix, k - 1)
  }

  /** The digits that the loop at 320-329 emits: with precision 0 it stops once the rest is zero. */
  function Emitted(v: nat, radix: nat, k: nat, precision: nat): seq<nat>
    requires radix > 0
  {
    if k == 0 || (precision == 0 && v == 0) then [] else
      PowPositive(radix, k - 1);
      [Division.Quot(v, Pow(radix, k - 1))] + Emitted(Division.Rem(v, Pow(radix, k - 1)), radix, k - 1, precision)
  }

  lemma {:induction false} PowPositive(radix: nat, k: nat)
    requires radix > 0
    ensures Pow(radix, k) > 0
  {
    if k > 0 {
      PowPositive(radix, k - 1);
      PowNext(radix, k);
      Division.Grows(radix, 0, Pow(radix, k - 1));
    }
  }

  /** Reading digits from the left. */
  function Parse(acc: nat, s: seq<nat>, radix: nat): nat
    decreases |s|
  {
    if s == [] then acc else Parse(acc * radix + s[0], s[1..], radix)
  }

  /** The number of digits of a value: one for zero. */
  ghost predicate Width(v: nat, radix: nat, k: nat) { k > 0 && v < Pow(radix, k) && (k > 1 ==> Pow(radix, k - 1) <= v) }

  /** The first digit d of v and what is left, at the place p. */
  lemma {:induction false} LeadingDigit(v: nat, radix: nat, k: nat, p: nat, d: nat, rest: nat)
    requires radix > 0 && k > 0 && v < Pow(radix, k) && p == Pow(radix, k - 1) && p > 0
    requires d == Division.Quot(v, p) && rest == Division.Rem(v, p)
    ensures d < radix && rest < p && v == p * d + rest
  {
    Division.QuotIsDiv(v, p);
    PowNext(radix, k);
    Commutes(p, radix);
    if radix < d { Division.Grows(p, radix, d); }
  }

  lemma {:induction false} LeadingBelow(v: nat, radix: nat, k: nat, p: nat, d: nat)
    requires radix > 0 && k > 0 && v < Pow(radix, k) && p == Pow(radix, k - 1) && p > 0 && d == Division.Quot(v, p)
    ensures d < radix
  {
    LeadingDigit(v, radix, k, p, d, Division.Rem(v, p));
  }

  lemma {:induction false} Commutes(a: nat, b: nat)
    ensures a * b == b * a
  {
  }

  lemma {:induction false} DigitsBelow(v: nat, radix: nat, k: nat, i: nat)
    requires radix > 0 && v < Pow(radix, k) && i < k
    ensures Digits(v, radix, k)[i] < radix
  {
    PowPositive(radix, k - 1);
    var p := Pow(radix, k - 1);
    LeadingDigit(v, radix, k, p, Division.Quot(v, p), Division.Rem(v, p));
    if i > 0 { DigitsBelow(Division.Rem(v, p), radix, k - 1, i - 1); }
  }

  /** Reading the digits gives the value back. */
  lemma {:induction false} ParseDigits(acc: nat, v: nat, radix: nat, k: nat)
    requires radix > 0 && v < Pow(radix, k)
    ensures Parse(acc, Digits(v, radix, k), radix) == acc * Pow(radix, k) + v
    decreases k
  {
    if k > 0 {
      PowPositive(radix, k - 1);
      var p := Pow(radix, k - 1);
      var d, rest := Division.Quot(v, p), Division.Rem(v, p);
      LeadingDigit(v, radix, k, p, d, rest);
      assert Digits(v, radix, k)[1..] == Digits(rest, radix, k - 1);
      ParseDigits(acc * radix + d, rest, radix, k - 1);
      PowNext(radix, k);
      Horner(acc, radix, d, p);
    }
  }

  lemma {:induction false} Horner(acc: nat, radix: nat, d: nat, p: nat)
    ensures (acc * radix + d) * p == acc * (radix * p) + p * d
  {
    assert (acc * radix + d) * p == acc * radix * p + d * p;
    assert acc * radix * p == acc * (radix * p);
  }

  // ---------- what precision 0 emits ----------

  /** With a precision the loop emits all digits; without, it leaves out the zeros at the end. */
  lemma {:induction false} EmittedAll(v: nat, radix: nat, k: nat, precision: nat)
    requires radix > 0 && precision > 0
    ensures Emitted(v, radix, k, precision) == Digits(v, radix, k)
  {
    if k > 0 {
      PowPositive(radix, k - 1);
      EmittedAll(Division.Rem(v, Pow(radix, k - 1)), radix, k - 1, precision);
    }
  }

  lemma {:induction false} DigitsOfZero(radix: nat, k: nat, i: nat)
    requires radix > 0 && i < k
    ensures Digits(0, radix, k)[i] == 0
  {
    PowPositive(radix, k - 1);
    if i > 0 { DigitsOfZero(radix, k - 1, i - 1); }
  }

  lemma {:induction false} EmittedPrefix(v: nat, radix: nat, k: nat, precision: nat)
    requires radix > 0 && v < Pow(radix, k)
    ensures |Emitted(v, radix, k, precision)| <= k && Emitted(v, radix, k, precision) == Digits(v, radix, k)[..|Emitted(v, radix, k, precision)|]
    ensures forall i: nat :: |Emitted(v, radix, k, precision)| <= i < k ==> Digits(v, radix, k)[i] == 0
  {
    if k == 0 {
    } else if precision == 0 && v == 0 {
      forall i: nat | i < k ensures Digits(v, radix, k)[i] == 0 { DigitsOfZero(radix, k, i); }
    } else {
      PowPositive(radix, k - 1);
      var p := Pow(radix, k - 1);
      var d, rest := Division.Quot(v, p), Division.Rem(v, p);
      LeadingDigit(v, radix, k, p, d, rest);
      EmittedPrefix(rest, radix, k - 1, precision);
      assert Digits(v, radix, k) == [d] + Digits(rest, radix, k - 1);
    }
  }

  /** The last digit is the value modulo the radix. */
  lemma {:induction false} LastDigit(v: nat, radix: nat, k: nat)
    requires radix > 0 && k > 0 && v < Pow(radix, k)
    ensures Digits(v, radix, k)[k - 1] == Division.Rem(v, radix)
  {
    PowPositive(radix, k - 1);
    var p := Pow(radix, k - 1);
    var d, rest := Division.Quot(v, p), Division.Rem(v, p);
    LeadingDigit(v, radix, k, p, d, rest);
    if k > 1 {
      LastDigit(rest, radix, k - 1);
      PowNext(radix, k - 1);
      Multiple(v, radix, Pow(radix, k - 2), d, rest);
    }
  }

  /** A multiple of the radix does not change the last digit. */
  lemma {:induction false} Multiple(v: nat, radix: nat, p: nat, d: nat, rest: nat)
    requires radix > 0 && v == radix * p * d + rest
    ensures Division.Rem(v, radix) == Division.Rem(rest, radix)
  {
    assert radix * p * d == radix * (p * d);
    Division.RemUnique(radix, radix * p * d, p * d, 0);
    Division.Shifted(radix, radix * p * d, rest);
  }

  // ---------- the number of digits ----------

  function DigitCount(v: nat, radix: nat): nat
    requires radix >= 2
    decreases v
  {
    if v < radix then 1 else 1 + DigitCount(Division.Quot(v, radix), radix)
  }

  /** The digit count is the only k with radix^(k - 1) <= v < radix^k. */
  lemma {:induction false} DigitCountWidth(v: nat, radix: nat)
    requires radix >= 2
    ensures Width(v, radix, DigitCount(v, radix))
    decreases v
  {
    if v >= radix {
      var q, k := Division.Quot(v, radix), DigitCount(v, radix);
      DigitCountWidth(q, radix);
      OneMoreDigit(v, radix, q, k);
    } else {
      PowNext(radix, 1);
    }
  }

  lemma {:induction false} OneMoreDigit(v: nat, radix: nat, q: nat, k: nat)
    requires radix >= 2 && v >= radix && q == Division.Quot(v, radix) && k > 1 && Width(q, radix, k - 1)
    ensures Width(v, radix, k)
  {
    Division.QuotIsDiv(v, radix);
    var high := Pow(radix, k - 1);
    PowNext(radix, k);
    Division.Grows(radix, q, high);
    if k > 2 {
      PowNext(radix, k - 1);
      Scaled(radix, Pow(radix, k - 2), q);
    } else {
      PowNext(radix, 1);
    }
  }

  lemma {:induction false} Scaled(radix: nat, a: nat, b: nat)
    requires a <= b
    ensures radix * a <= radix * b
  {
    if a < b { Division.Grows(radix, a, b); }
  }

  lemma {:induction false} PowMonotone(radix: nat, a: nat, b: nat)
    requires radix > 0 && a <= b
    ensures Pow(radix, a) <= Pow(radix, b)
    decreases b
  {
    if a < b {
      PowMonotone(radix, a, b - 1);
      PowPositive(radix, b - 1);
      PowNext(radix, b);
      Commutes(radix, Pow(radix, b - 1));
      Scaled(Pow(radix, b - 1), 1, radix);
    }
  }

  lemma {:induction false} WidthUnique(v: nat, radix: nat, j: nat, k: nat)
    requires radix > 0 && Width(v, radix, j) && Width(v, radix, k)
    ensures j == k
  {
    if j < k { PowMonotone(radix, j, k - 1); } else if k < j { PowMonotone(radix, k, j - 1); }
  }

  // ---------- the text ----------

  function Repeat(c: char, n: nat): (s: string)
    ensures |s| == n
  {
    if n == 0 then "" else Repeat(c, n - 1) + [c]
  }

  predicate AllBelow16(s: seq<nat>) { forall i: nat {:trigger s[i]} :: i < |s| ==> s[i] < 16 }

  function DigitChar(d: nat, upper: bool): char
    requires d < 16
  {
    if d < 10 then '0' + d as char else (if upper then 'A' else 'a') + (d - 10) as char
  }

  function Chars(s: seq<nat>, upper: bool): (t: string)
    requires AllBelow16(s)
    ensures |t| == |s| && forall i: nat :: i < |s| ==> t[i] == DigitChar(s[i], upper)
  {
    if s == [] then "" else Chars(s[..|s| - 1], upper) + [DigitChar(s[|s| - 1], upper)]
  }

  /** Reading a digit character. */
  function CharDigit(c: char): nat {
    if '0' <= c <= '9' then (c - '0') as nat
    else if 'a' <= c <= 'f' then (c - 'a') as nat + 10
    else if 'A' <= c <= 'F' then (c - 'A') as nat + 10
    else 0
  }

  function Read(t: string): (s: seq<nat>)
    ensures |s| == |t| && forall i: nat :: i < |t| ==> s[i] == CharDigit(t[i])
  {
    if t == "" then [] else Read(t[..|t| - 1]) + [CharDigit(t[|t| - 1])]
  }

  lemma {:induction false} ReadChars(s: seq<nat>, upper: bool)
    requires AllBelow16(s)
    ensures Read(Chars(s, upper)) == s
  {
    var t := Chars(s, upper);
    forall i: nat | i < |s| ensures Read(t)[i] == s[i] {
      assert t[i] == DigitChar(s[i], upper);
      ReadDigit(s[i], upper);
    }
  }

  lemma {:induction false} ReadDigit(d: nat, upper: bool)
    requires d < 16
    ensures CharDigit(DigitChar(d, upper)) == d
  {
  }

  function Shown(n: Number): nat
    requires n.Ok()
  {
    if n.precision == 0 && n.value == 0 then 0 else DigitCount(n.value, n.radix)
  }

  function PrecisionPad(n: Number): nat
    requires n.Ok()
  {
    if n.precision > Shown(n) then n.precision - Shown(n)
    else if n.flags.leadingZero && (n.value != 0 || !n.flags.noPrefixOnZero) then 1
    else 0
  }

  function Sign(n: Number): string {
    if n.negative then "-" else if !n.flags.noPrefixOnZero || n.value != 0 then PrefixAt(n.prefix) else ""
  }

  /** The length that the code computes for all but the width padding. */
  function Length(n: Number): nat
    requires n.Ok()
  {
    Shown(n) + PrecisionPad(n) + |Sign(n)|
  }

  function Gap(n: Number): nat
    requires n.Ok()
  {
    if n.width > Length(n) then n.width - Length(n) else 0
  }

  function Lead(n: Number): nat requires n.Ok() { if n.flags.left || n.flags.zero then 0 else Gap(n) }
  function Mid(n: Number): nat requires n.Ok() { if n.flags.zero && !n.flags.left then Gap(n) else 0 }
  function Trail(n: Number): nat requires n.Ok() { if n.flags.left then Gap(n) else 0 }

  /** The digits that are printed, without padding. */
  function Printed(n: Number): (s: seq<nat>)
    requires n.Ok()
    ensures AllBelow16(s)
  {
    var k := DigitCount(n.value, n.radix);
    PrintedBelow(n.value, n.radix, k, n.precision);
    Emitted(n.value, n.radix, k, n.precision)
  }

  lemma {:induction false} PrintedBelow(v: nat, radix: nat, k: nat, precision: nat)
    requires 2 <= radix <= 16 && k == DigitCount(v, radix)
    ensures AllBelow16(Emitted(v, radix, k, precision))
  {
    DigitCountWidth(v, radix);
    EmittedPrefix(v, radix, k, precision);
    forall i: nat | i < k ensures Digits(v, radix, k)[i] < radix { DigitsBelow(v, radix, k, i); }
  }

  function Text(n: Number): string
    requires n.Ok()
  {
    if Length(n) == 0 then Repeat(' ', Lead(n))
    else Repeat(' ', Lead(n)) + Sign(n) + Repeat('0', Mid(n)) + Repeat('0', PrecisionPad(n)) + Chars(Printed(n), n.flags.upper) + Repeat(' ', Trail(n))
  }

  // ---------- the code ----------

  lemma {:induction false} NextPlace(value: nat, pw: nat, radix: nat)
    requires pw > 0
    ensures value / pw >= radix <==> pw * radix <= value
  {
    Division.RemIsMod(value, pw);
    if value / pw > radix { Division.Grows(pw, radix, value / pw); }
    if value / pw < radix { Division.Grows(pw, value / pw, radix); }
  }

  /** The loop at 303-306: the place of the first digit, and how many digits there are. No product leaves 64 bits. */
  method FindPlace(n: Number) returns (pw: nat, length: nat, ghost k: nat)
    requires n.Ok()
    ensures k == DigitCount(n.value, n.radix) && pw == Pow(n.radix, k - 1) && length == Shown(n) && 0 < pw < 0x1_0000_0000_0000_0000
  {
    pw, k := 1, 1;
    length := if n.precision != 0 || n.value != 0 then 1 else 0;
    NextPlace(n.value, pw, n.radix);
    while n.value / pw >= n.radix
      invariant k >= 1 && pw == Pow(n.radix, k - 1) && 0 < pw < 0x1_0000_0000_0000_0000 && (k > 1 ==> pw <= n.value)
      invariant length + 1 == k + (if n.precision != 0 || n.value != 0 then 1 else 0)
      invariant n.value / pw >= n.radix <==> pw * n.radix <= n.value
      decreases n.value - pw
    {
      Scaled(pw, 2, n.radix);
      Commutes(pw, n.radix);
      PowNext(n.radix, k);
      pw, length, k := pw * n.radix, length + 1, k + 1;
      NextPlace(n.value, pw, n.radix);
    }
    Commutes(pw, n.radix);
    PowNext(n.radix, k);
    assert Width(n.value, n.radix, k);
    DigitCountWidth(n.value, n.radix);
    WidthUnique(n.value, n.radix, k, DigitCount(n.value, n.radix));
    ZeroIsShort(n, k);
  }

  lemma {:induction false} ZeroIsShort(n: Number, k: nat)
    requires n.Ok() && k == DigitCount(n.value, n.radix)
    ensures n.value == 0 ==> k == 1
  {
  }

  /** One of the padding loops. */
  method Pad(before: string, c: char, from: nat, to: nat) returns (out: string)
    ensures out == before + Repeat(c, if to > from then to - from else 0)
  {
    out := before;
    var i := from;
    while i < to
      invariant from <= i && (i <= to || i == from) && out == before + Repeat(c, i - from)
    {
      out, i := out + [c], i + 1;
    }
  }

  /** The sign or the prefix. */
  method PutSign(n: Number, before: string) returns (out: string)
    requires n.Ok()
    ensures out == before + Sign(n)
  {
    out := before;
    if n.negative {
      out := out + "-";
    } else if !n.flags.noPrefixOnZero || n.value != 0 {
      var o := n.prefix;
      while o < |PREFIXES| && PREFIXES[o] != '\0'
        invariant out + PrefixAt(o) == before + PrefixAt(n.prefix)
        decreases |PREFIXES| - o
      {
        out, o := out + [PREFIXES[o]], o + 1;
      }
    }
  }

  /** Dropping the first place. */
  lemma {:induction false} PlaceDown(radix: nat, j: nat, pw: nat)
    requires radix >= 2 && j > 0 && pw == Pow(radix, j - 1)
    ensures Division.Quot(pw, radix) == if j == 1 then 0 else Pow(radix, j - 2)
  {
    if j > 1 {
      PowNext(radix, j - 1);
      Division.QuotUnique(radix, pw, Pow(radix, j - 2), 0);
    }
  }

  /** The loop at 320-329. */
  method PutDigits(value0: nat, radix: nat, precision: nat, upper: bool, before: string, pw0: nat, ghost k: nat, ghost all: seq<nat>) returns (out: string)
    requires 2 <= radix <= 16 && k > 0 && pw0 == Pow(radix, k - 1) && value0 < Pow(radix, k)
    requires AllBelow16(all) && all == Emitted(value0, radix, k, precision)
    ensures out == before + Chars(all, upper)
  {
    out := before;
    var value: nat, pw: nat := value0, pw0;
    ghost var j, done: seq<nat> := k, [];
    while pw != 0 && (precision != 0 || value != 0)
      invariant value < Pow(radix, j) && pw == if j == 0 then 0 else Pow(radix, j - 1)
      invariant done + Emitted(value, radix, j, precision) == all
      invariant AllBelow16(done) && out == before + Chars(done, upper)
      decreases j
    {
      var c, rest, next := SplitOff(value, pw, radix, j);
      EmittedStep(value, radix, j, precision, done, all);
      out := PutDigit(out, c, upper, before, done);
      done := done + [c];
      value, pw, j := rest, next, j - 1;
    }
    if j > 0 { PowPositive(radix, j - 1); }
    assert Emitted(value, radix, j, precision) == [];
    assert done + [] == done;
  }

  lemma {:induction false} EmittedStep(value: nat, radix: nat, j: nat, precision: nat, done: seq<nat>, all: seq<nat>)
    requires radix > 0 && j > 0 && Pow(radix, j - 1) > 0 && (precision != 0 || value != 0) && done + Emitted(value, radix, j, precision) == all
    ensures var p := Pow(radix, j - 1); done + [Division.Quot(value, p)] + Emitted(Division.Rem(value, p), radix, j - 1, precision) == all
  {
  }

  method PutDigit(out0: string, c: nat, upper: bool, ghost before: string, ghost done: seq<nat>) returns (out: string)
    requires c < 16 && AllBelow16(done) && out0 == before + Chars(done, upper)
    ensures AllBelow16(done + [c]) && out == before + Chars(done + [c], upper)
  {
    out := out0 + [DigitChar(c, upper)];
    assert (done + [c])[..|done|] == done;
  }

  /** The first digit, the rest of the value, and the next place. */
  method SplitOff(value: nat, pw: nat, radix: nat, ghost j: nat) returns (c: nat, rest: nat, next: nat)
    requires 2 <= radix <= 16 && j > 0 && pw == Pow(radix, j - 1) && pw > 0 && value < Pow(radix, j)
    ensures c == Division.Quot(value, pw) && rest == Division.Rem(value, pw) && c < 16 && rest < Pow(radix, j - 1)
    ensures next == if j == 1 then 0 else Pow(radix, j - 2)
  {
    c, rest, next := Division.Quot(value, pw), Division.Rem(value, pw), Division.Quot(pw, radix);
    LeadingBelow(value, radix, j, pw, c);
    PlaceDown(radix, j, pw);
  }

  /** Lines 307-312: the precision padding and the whole length. */
  method Measure(n: Number, shown: nat) returns (precisionPad: nat, length: nat)
    requires n.Ok() && shown == Shown(n)
    ensures precisionPad == PrecisionPad(n) && length == Length(n)
  {
    length, precisionPad := shown, 0;
    if n.precision > length { precisionPad := n.precision - length; }
    if precisionPad == 0 && n.flags.leadingZero && (n.value != 0 || !n.flags.noPrefixOnZero) { precisionPad := 1; }
    length := length + precisionPad;
    if n.negative {
      length := length + 1;
    } else if !n.flags.noPrefixOnZero || n.value != 0 {
      var i := n.prefix;
      while i < |PREFIXES| && PREFIXES[i] != '\0'
        invariant length + |PrefixAt(i)| == Length(n)
        decreases |PREFIXES| - i
      {
        i, length := i + 1, length + 1;
      }
    }
  }

  /** lbl_print_number. */
  method Print(n: Number) returns (out: string)
    requires n.Ok()
    ensures out == Text(n)
  {
    var pw, shown;
    ghost var k;
    pw, shown, k := FindPlace(n);
    var precisionPad, length := Measure(n, shown);
    out := "";
    if !n.flags.left && !n.flags.zero { out := Pad(out, ' ', length, n.width); }
    assert out == Repeat(' ', Lead(n));
    if length == 0 { return; }
    out := PutSign(n, out);
    if n.flags.zero && !n.flags.left { out := Pad(out, '0', length, n.width); }
    assert out == Repeat(' ', Lead(n)) + Sign(n) + Repeat('0', Mid(n));
    out := Pad(out, '0', 0, precisionPad);
    DigitCountWidth(n.value, n.radix);
    out := PutDigits(n.value, n.radix, n.precision, n.flags.upper, out, pw, k, Printed(n));
    if n.flags.left { out := Pad(out, ' ', length, n.width); }
  }

  // ---------- what the text means ----------

  lemma {:induction false} ParseLeadingZeros(zeros: seq<nat>, s: seq<nat>, radix: nat)
    requires forall i: nat :: i < |zeros| ==> zeros[i] == 0
    ensures Parse(0, zeros + s, radix) == Parse(0, s, radix)
    decreases |zeros|
  {
    if zeros == [] {
      assert zeros + s == s;
    } else {
      assert (zeros + s)[1..] == zeros[1..] + s;
      assert 0 * radix + 0 == 0;
      ParseLeadingZeros(zeros[1..], s, radix);
    }
  }

  lemma {:induction false} ReadZeros(c: nat, t: string)
    ensures Read(Repeat('0', c) + t) == Read(Repeat('0', c)) + Read(t)
    ensures forall i: nat :: i < c ==> Read(Repeat('0', c))[i] == 0
  {
    forall i: nat | i < c ensures Repeat('0', c)[i] == '0' { RepeatAt('0', c, i); }
  }

  lemma {:induction false} RepeatAt(c: char, n: nat, i: nat)
    requires i < n
    ensures Repeat(c, n)[i] == c
  {
    if i < n - 1 { RepeatAt(c, n - 1, i); }
  }

  /** With a precision, the digits are as many as the value has, and they read back to it, padding zeros included. */
  lemma {:induction false} ReadsBack(n: Number, zeros: nat)
    requires n.Ok() && n.precision > 0
    ensures |Printed(n)| == Shown(n) && Width(n.value, n.radix, Shown(n))
    ensures Parse(0, Read(Repeat('0', zeros) + Chars(Printed(n), n.flags.upper)), n.radix) == n.value
  {
    var k := DigitCount(n.value, n.radix);
    DigitCountWidth(n.value, n.radix);
    EmittedAll(n.value, n.radix, k, n.precision);
    ParseDigits(0, n.value, n.radix, k);
    ReadChars(Printed(n), n.flags.upper);
    ReadZeros(zeros, Chars(Printed(n), n.flags.upper));
    ParseLeadingZeros(Read(Repeat('0', zeros)), Printed(n), n.radix);
  }

  /** Zeros at the end of a number count. */
  lemma {:induction false} ParseTrailingZeros(acc: nat, s: seq<nat>, zeros: seq<nat>, radix: nat)
    requires radix >= 2 && forall i: nat :: i < |zeros| ==> zeros[i] == 0
    ensures Parse(acc, s + zeros, radix) >= Parse(acc, s, radix)
    ensures zeros != [] && Parse(acc, s, radix) > 0 ==> Parse(acc, s + zeros, radix) > Parse(acc, s, radix)
    decreases |s| + |zeros|
  {
    if s != [] {
      assert (s + zeros)[1..] == s[1..] + zeros;
      ParseTrailingZeros(acc * radix + s[0], s[1..], zeros, radix);
    } else if zeros != [] {
      assert s + zeros == zeros;
      Commutes(acc, radix);
      Scaled(acc, 2, radix);
      ParseTrailingZeros(acc * radix + 0, [], zeros[1..], radix);
      assert [] + zeros[1..] == zeros[1..];
    } else {
      assert s + zeros == s;
    }
  }

  /** The digits printed read back to the value exactly when there is a precision, or nothing to print, or no zero at the end. */
  lemma {:induction false} ReadsBackExactly(n: Number)
    requires n.Ok()
    ensures Parse(0, Printed(n), n.radix) == n.value <==> n.precision > 0 || n.value == 0 || n.value % n.radix != 0
  {
    var v, radix, k := n.value, n.radix, DigitCount(n.value, n.radix);
    DigitCountWidth(v, radix);
    ParseDigits(0, v, radix, k);
    EmittedPrefix(v, radix, k, n.precision);
    LastDigit(v, radix, k);
    Division.RemIsMod(v, radix);
    var e := |Printed(n)|;
    var zeros := Digits(v, radix, k)[e..];
    assert Digits(v, radix, k) == Printed(n) + zeros;
    ParseTrailingZeros(0, Printed(n), zeros, radix);
    if n.precision > 0 {
      EmittedAll(v, radix, k, n.precision);
    } else if v % radix != 0 {
      assert Digits(v, radix, k)[k - 1] != 0;
      assert zeros == [];
      assert Digits(v, radix, k) == Printed(n);
    } else if v != 0 {
      StopsEarly(v, radix, k);
      assert zeros != [];
    }
  }

  /** With precision 0 a last digit 0 is never reached. */
  lemma {:induction false} StopsEarly(v: nat, radix: nat, k: nat)
    requires radix >= 2 && k > 0 && v < Pow(radix, k) && Division.Rem(v, radix) == 0
    ensures |Emitted(v, radix, k, 0)| < k
  {
    if v != 0 {
      PowPositive(radix, k - 1);
      var p := Pow(radix, k - 1);
      var rest := Division.Rem(v, p);
      LeadingDigit(v, radix, k, p, Division.Quot(v, p), rest);
      if k > 1 {
        PowNext(radix, k - 1);
        Multiple(v, radix, Pow(radix, k - 2), Division.Quot(v, p), rest);
        StopsEarly(rest, radix, k - 1);
      } else {
        PowNext(radix, 1);
      }
    }
  }

  /** The width padding is of one kind, and fills up to the width. */
  lemma {:induction false} OnePadding(n: Number)
    requires n.Ok()
    ensures Lead(n) + Mid(n) + Trail(n) == Gap(n)
    ensures (Lead(n) == 0 && Mid(n) == 0) || (Lead(n) == 0 && Trail(n) == 0) || (Mid(n) == 0 && Trail(n) == 0)
    ensures Length(n) + Gap(n) == if n.width > Length(n) then n.width else Length(n)
  {
  }

  /** The text is as long as the larger of width and length, except that precision 0 may cut digits, or skip the padding of an empty number. */
  lemma {:induction false} TextLength(n: Number)
    requires n.Ok()
    ensures |Text(n)| == (if n.width > Length(n) then n.width else Length(n)) <==>
      && (n.precision > 0 || n.value == 0 || n.value % n.radix != 0)
      && (Length(n) > 0 || n.width == 0 || !(n.flags.left || n.flags.zero))
  {
    OnePadding(n);
    PrintedCount(n);
  }

  lemma {:induction false} PrintedCount(n: Number)
    requires n.Ok()
    ensures |Printed(n)| <= Shown(n)
    ensures |Printed(n)| == Shown(n) <==> n.precision > 0 || n.value == 0 || n.value % n.radix != 0
  {
    var v, radix, k := n.value, n.radix, DigitCount(n.value, n.radix);
    DigitCountWidth(v, radix);
    EmittedPrefix(v, radix, k, n.precision);
    LastDigit(v, radix, k);
    Division.RemIsMod(v, radix);
    if n.precision > 0 {
      EmittedAll(v, radix, k, n.precision);
    } else if v % radix == 0 && v != 0 {
      StopsEarly(v, radix, k);
    }
  }

  // ---------- signed numbers ----------

  /** What a 64-bit word means as a signed number. */
  function Signed(word: nat): int { if word < 0x8000_0000_0000_0000 then word else word - 0x1_0000_0000_0000_0000 }

  /** lbl_print_signed_number: the sign, and the word negated in 64 bits. */
  function Magnitude(n: Number): (m: Number)
    requires n.Ok()
    ensures m.Ok()
  {
    var negative := n.value >= 0x8000_0000_0000_0000;
    n.(negative := negative, value := if negative then 0x1_0000_0000_0000_0000 - n.value else n.value)
  }

  /** A signed number with a precision prints its sign and digits that read back to it, for the least number too. */
  lemma {:induction false} SignedReadsBack(n: Number)
    requires n.Ok() && n.precision > 0
    ensures var m := Magnitude(n);
      && (m.negative <==> Signed(n.value) < 0) && (m.negative ==> Sign(m) == "-")
      && (if m.negative then 0 - Parse(0, Printed(m), m.radix) else Parse(0, Printed(m), m.radix)) == Signed(n.value)
  {
    ReadsBackExactly(Magnitude(n));
  }

  // ---------- an independent reader ----------

  /** What a reader makes of a text: spaces, a sign or radix prefix, digits, and the rest. */
  datatype Reading = Reading(spaces: nat, sign: string, digits: string, rest: string)

  predicate IsDigit(c: char) { '0' <= c <= '9' || 'a' <= c <= 'f' || 'A' <= c <= 'F' }

  function Spaces(t: string): (n: nat)
    ensures n <= |t|
  {
    if t != "" && t[0] == ' ' then 1 + Spaces(t[1..]) else 0
  }

  function Run(t: string): (n: nat)
    ensures n <= |t|
  {
    if t != "" && IsDigit(t[0]) then 1 + Run(t[1..]) else 0
  }

  function SignOf(t: string): (g: string)
    ensures |g| <= |t|
  {
    if |t| >= 1 && (t[0] == '-' || t[0] == '+') then t[..1]
    else if |t| >= 2 && t[0] == '0' && (t[1] == 'x' || t[1] == 'X') then t[..2]
    else ""
  }

  function ReadText(t: string): Reading {
    var u := t[Spaces(t)..];
    var g := SignOf(u);
    var w := u[|g|..];
    Reading(Spaces(t), g, w[..Run(w)], w[Run(w)..])
  }

  /** The number that a reading stands for. */
  function Meaning(r: Reading, radix: nat): int {
    var v := Parse(0, Read(r.digits), radix);
    if r.sign == "-" then 0 - v else v
  }

  predicate AllSpaces(t: string) { forall i: nat :: i < |t| ==> t[i] == ' ' }

  predicate AllDigits(t: string) { forall i: nat :: i < |t| ==> IsDigit(t[i]) }

  lemma {:induction false} SpacesOf(a: string, x: string)
    requires AllSpaces(a) && (x == "" || x[0] != ' ')
    ensures Spaces(a + x) == |a|
  {
    if a == "" {
      assert a + x == x;
    } else {
      assert (a + x)[1..] == a[1..] + x;
      SpacesOf(a[1..], x);
    }
  }

  lemma {:induction false} RunOf(d: string, x: string)
    requires AllDigits(d) && (x == "" || !IsDigit(x[0]))
    ensures Run(d + x) == |d|
  {
    if d == "" {
      assert d + x == x;
    } else {
      assert (d + x)[1..] == d[1..] + x;
      RunOf(d[1..], x);
    }
  }

  lemma {:induction false} ReadSteps(t: string, a: string, x: string, g: string, w: string, d: string, e: string)
    requires t == a + x && x == g + w && w == d + e
    requires Spaces(t) == |a| && SignOf(x) == g && Run(w) == |d|
    ensures ReadText(t) == Reading(|a|, g, d, e)
  {
    assert t[|a|..] == x && x[|g|..] == w && w[..|d|] == d && w[|d|..] == e;
  }

  /** Spaces, a sign, digits and spaces are read as such. */
  lemma {:induction false} ReadParts(a: string, g: string, d: string, e: string)
    requires AllSpaces(a) && AllSpaces(e) && AllDigits(d) && d != "" && IsSign(g)
    ensures ReadText(a + g + d + e) == Reading(|a|, g, d, e)
  {
    var w := d + e;
    var x := g + w;
    SignOfParts(g, d, e);
    StartsSolid(g, d, e);
    SpacesOf(a, x);
    RunOf(d, e);
    assert a + g + d + e == a + x;
    ReadSteps(a + x, a, x, g, w, d, e);
  }

  predicate IsSign(g: string) { g == "" || g == "-" || g == "+" || g == "0x" || g == "0X" }

  lemma {:induction false} StartsSolid(g: string, d: string, e: string)
    requires AllDigits(d) && d != "" && IsSign(g) && AllSpaces(e)
    ensures (g + (d + e))[0] != ' ' && (e == "" || !IsDigit(e[0]))
  {
    if g == "" { assert (g + (d + e))[0] == d[0]; } else { assert (g + (d + e))[0] == g[0]; }
  }

  lemma {:induction false} SignOfParts(g: string, d: string, e: string)
    requires AllDigits(d) && d != "" && AllSpaces(e) && IsSign(g)
    ensures SignOf(g + (d + e)) == g
  {
    var x := g + (d + e);
    if g == "" {
      assert x[0] == d[0] && IsDigit(d[0]);
      if |x| >= 2 {
        if |d| > 1 { assert x[1] == d[1] && IsDigit(d[1]); } else { assert x[1] == e[0]; }
      }
    } else {
      assert x[..|g|] == g;
      assert x[0] == g[0] && (|g| == 2 ==> x[1] == g[1]);
    }
  }

  /** Digit characters are digits, of the case asked for. */
  lemma {:induction false} CharsAreDigits(s: seq<nat>, upper: bool)
    requires AllBelow16(s)
    ensures AllDigits(Chars(s, upper)) && InCase(Chars(s, upper), upper)
  {
    var t := Chars(s, upper);
    forall i: nat | i < |t| ensures IsDigit(t[i]) && (if upper then !('a' <= t[i] <= 'z') else !('A' <= t[i] <= 'Z')) {
      assert t[i] == DigitChar(s[i], upper);
    }
  }

  /** Letters are of one case. */
  predicate InCase(t: string, upper: bool) { forall i: nat :: i < |t| ==> if upper then !('a' <= t[i] <= 'z') else !('A' <= t[i] <= 'Z') }

  lemma {:induction false} RepeatAll(c: char, n: nat)
    ensures forall i: nat :: i < n ==> Repeat(c, n)[i] == c
  {
    forall i: nat | i < n ensures Repeat(c, n)[i] == c { RepeatAt(c, n, i); }
  }

  lemma {:induction false} RepeatSum(c: char, a: nat, b: nat)
    ensures Repeat(c, a) + Repeat(c, b) == Repeat(c, a + b)
  {
    if b > 0 {
      RepeatSum(c, a, b - 1);
      assert Repeat(c, a) + (Repeat(c, b - 1) + [c]) == (Repeat(c, a) + Repeat(c, b - 1)) + [c];
    } else {
      assert Repeat(c, a) + "" == Repeat(c, a);
    }
  }

  /** One of the offsets that the conversions use. */
  predicate KnownPrefix(o: nat) { o == 0 || o == 1 || o == 4 || o == 7 || o == 9 }

  /** What is printed in front of the digits: the minus of a negative number, else the prefix asked for, unless it is left out for zero. */
  function InFront(n: Number): string {
    if n.negative then "-"
    else if n.value == 0 && n.flags.noPrefixOnZero then ""
    else if n.prefix == 1 then "0x" else if n.prefix == 4 then "0X" else if n.prefix == 7 then "+" else if n.prefix == 9 then " " else ""
  }

  /** The digits that a number needs: as many as it has, or as the precision asks for, and one more for a leading zero. */
  function Needed(n: Number): nat
    requires n.radix >= 2
  {
    var k := DigitCount(n.value, n.radix);
    if n.precision > k then n.precision
    else if n.flags.leadingZero && (n.value != 0 || !n.flags.noPrefixOnZero) then k + 1
    else k
  }

  function Zeros(n: Number): nat
    requires n.Ok()
  {
    Mid(n) + PrecisionPad(n)
  }

  /** All zeros and digits of the text. */
  function DigitText(n: Number): string
    requires n.Ok()
  {
    Repeat('0', Zeros(n)) + Chars(Printed(n), n.flags.upper)
  }

  lemma {:induction false} PrintedAll(n: Number)
    requires n.Ok() && n.precision > 0
    ensures |Printed(n)| == DigitCount(n.value, n.radix) > 0
  {
    EmittedAll(n.value, n.radix, DigitCount(n.value, n.radix), n.precision);
  }

  lemma {:induction false} Layout(n: Number)
    requires n.Ok() && n.precision > 0
    ensures PrecisionPad(n) + DigitCount(n.value, n.radix) == Needed(n) && |DigitText(n)| == Mid(n) + Needed(n)
    ensures Length(n) == Needed(n) + |Sign(n)| && Length(n) > 0
  {
    PrintedAll(n);
  }

  lemma {:induction false} DigitTextMeans(n: Number)
    requires n.Ok() && n.precision > 0
    ensures Parse(0, Read(DigitText(n)), n.radix) == n.value
  {
    ReadsBack(n, Zeros(n));
  }

  /** The digits mean the value, in the case asked for. */
  lemma {:induction false} DigitTextReads(n: Number)
    requires n.Ok() && n.precision > 0
    ensures AllDigits(DigitText(n)) && InCase(DigitText(n), n.flags.upper) && DigitText(n) != ""
    ensures n.value == 0 || PrecisionPad(n) > 0 ==> DigitText(n)[0] == '0'
  {
    PrintedAll(n);
    RepeatAll('0', Zeros(n));
    CharsAreDigits(Printed(n), n.flags.upper);
    DigitsThen(Repeat('0', Zeros(n)), Chars(Printed(n), n.flags.upper), n.flags.upper);
    if Zeros(n) > 0 {
      assert DigitText(n)[0] == Repeat('0', Zeros(n))[0];
    } else if n.value == 0 {
      PrintedZero(n);
    }
  }

  lemma {:induction false} DigitsThen(z: string, t: string, upper: bool)
    requires (forall i: nat :: i < |z| ==> z[i] == '0') && AllDigits(t) && InCase(t, upper)
    ensures AllDigits(z + t) && InCase(z + t, upper)
  {
    forall i: nat | i < |z + t| ensures IsDigit((z + t)[i]) && (if upper then !('a' <= (z + t)[i] <= 'z') else !('A' <= (z + t)[i] <= 'Z')) {
      if i >= |z| { assert (z + t)[i] == t[i - |z|]; }
    }
  }

  lemma {:induction false} SignIsInFront(n: Number)
    requires KnownPrefix(n.prefix)
    ensures Sign(n) == InFront(n) && (InFront(n) == " " || IsSign(InFront(n)))
  {
    Prefixes();
  }

  lemma {:induction false} Regrouped(a: string, g: string, z: string, y: string, c: string, e: string)
    ensures a + g + z + y + c + e == a + g + ((z + y) + c) + e
  {
    assert a + g + z + y + c + e == (a + g) + (z + y + c) + e;
  }

  lemma {:induction false} TextShape(n: Number)
    requires n.Ok() && Length(n) > 0
    ensures Text(n) == Repeat(' ', Lead(n)) + Sign(n) + DigitText(n) + Repeat(' ', Trail(n))
  {
    RepeatSum('0', Mid(n), PrecisionPad(n));
    Regrouped(Repeat(' ', Lead(n)), Sign(n), Repeat('0', Mid(n)), Repeat('0', PrecisionPad(n)), Chars(Printed(n), n.flags.upper), Repeat(' ', Trail(n)));
  }

  /** A sign that is a space is read as one more space. */
  lemma {:induction false} ReadSpaced(a: string, g: string, d: string, e: string)
    requires AllSpaces(a) && AllSpaces(e) && AllDigits(d) && d != "" && (g == " " || IsSign(g))
    ensures ReadText(a + g + d + e) == Reading(|a| + (if g == " " then 1 else 0), if g == " " then "" else g, d, e)
  {
    if g == " " {
      assert a + g + d + e == (a + g) + "" + d + e;
      ReadParts(a + g, "", d, e);
    } else {
      ReadParts(a, g, d, e);
    }
  }

  /** What the reader finds in a text. */
  lemma {:induction false} TextIsRead(n: Number)
    requires n.Ok() && n.precision > 0 && KnownPrefix(n.prefix)
    ensures ReadText(Text(n)) ==
      Reading(Lead(n) + (if InFront(n) == " " then 1 else 0), if InFront(n) == " " then "" else InFront(n), DigitText(n), Repeat(' ', Trail(n)))
  {
    SignIsInFront(n);
    Layout(n);
    TextShape(n);
    DigitTextReads(n);
    RepeatAll(' ', Lead(n));
    RepeatAll(' ', Trail(n));
    ReadSpaced(Repeat(' ', Lead(n)), InFront(n), DigitText(n), Repeat(' ', Trail(n)));
  }

  /** A text with a precision is read as what is in front and digits that mean the value, padded to the width on one side or with zeros between. */
  lemma {:induction false} TextReads(n: Number)
    requires n.Ok() && n.precision > 0 && KnownPrefix(n.prefix)
    ensures var r, blank := ReadText(Text(n)), if InFront(n) == " " then 1 else 0;
      && r.sign == (if InFront(n) == " " then "" else InFront(n)) && AllSpaces(r.rest)
      && Parse(0, Read(r.digits), n.radix) == n.value && InCase(r.digits, n.flags.upper)
      && r.spaces + |r.sign| + |r.digits| + |r.rest| == (if n.width > Needed(n) + |InFront(n)| then n.width else Needed(n) + |InFront(n)|)
      && (n.flags.left ==> r.spaces == blank && |r.digits| == Needed(n))
      && (!n.flags.left && n.flags.zero ==> r.spaces == blank && r.rest == "" && |r.digits| >= Needed(n))
      && (!n.flags.left && !n.flags.zero ==> r.spaces >= blank && r.rest == "" && |r.digits| == Needed(n))
      && (n.value == 0 || Needed(n) > DigitCount(n.value, n.radix) ==> r.digits != "" && r.digits[0] == '0')
  {
    TextIsRead(n);
    SignIsInFront(n);
    Layout(n);
    DigitTextReads(n);
    DigitTextMeans(n);
    RepeatAll(' ', Trail(n));
    OnePadding(n);
  }

  lemma {:induction false} PrintedZero(n: Number)
    requires n.Ok() && n.precision > 0 && n.value == 0
    ensures Printed(n) == [0] && Chars(Printed(n), n.flags.upper) == "0"
  {
    EmittedAll(0, n.radix, 1, n.precision);
    DigitsOfZero(n.radix, 1, 0);
    assert |Printed(n)| == 1;
    assert Chars(Printed(n), n.flags.upper)[0] == DigitChar(0, n.flags.upper);
  }

  // ---------- the conversions ----------

  /** A conversion specification; a precision below 0 is none. */
  datatype Spec = Spec(left: bool, plus: bool, space: bool, alternative: bool, zero: bool, width: nat, precision: int)

  /** Lines 255-289: the number that a conversion prints. */
  function Converted(c: char, s: Spec, word: nat): (r: Option<Number>)
    requires word < 0x1_0000_0000_0000_0000
    ensures r.Some? ==> r.value.Ok() && KnownPrefix(r.value.prefix)
  {
    var precision := if s.precision < 0 then 1 else s.precision;
    if c == 'x' || c == 'X' then
      Some(Number(word, 16, Flags(s.left, s.zero, c == 'X', false, true), s.width, precision, if !s.alternative then 0 else if c == 'X' then 4 else 1, false))
    else if c == 'u' then Some(Number(word, 10, Flags(s.left, s.zero, false, false, false), s.width, precision, 0, false))
    else if c == 'o' then Some(Number(word, 8, Flags(s.left, s.zero, false, s.alternative, true), s.width, precision, 0, false))
    else if c == 'd' || c == 'i' then
      Some(Magnitude(Number(word, 10, Flags(s.left, s.zero, false, false, false), s.width, precision, if s.plus then 7 else if s.space then 9 else 0, false)))
    else None
  }

  /** What is read in the text of a number. */
  lemma {:induction false} NumberReadsBack(n: Number, r: Reading)
    requires n.Ok() && n.precision > 0 && KnownPrefix(n.prefix) && r == ReadText(Text(n))
    ensures r.sign == (if InFront(n) == " " then "" else InFront(n)) && (InFront(n) == " " ==> r.spaces > 0)
    ensures Meaning(r, n.radix) == if n.negative then 0 - n.value else n.value
    ensures InCase(r.digits, n.flags.upper) && PaddedTo(r, n.flags.left, n.flags.zero, n.width, Needed(n), |InFront(n)|)
    ensures n.flags.leadingZero ==> r.digits != "" && r.digits[0] == '0'
  {
    TextReads(n);
    SignIsInFront(n);
  }

  /** `least` digits, and padding only up to the width: behind, or with zeros or spaces in front. */
  predicate PaddedTo(r: Reading, left: bool, zero: bool, width: nat, least: nat, sign: nat) {
    && AllSpaces(r.rest) && |r.digits| >= least && (|r.digits| > least ==> zero && !left)
    && r.spaces + |r.sign| + |r.digits| + |r.rest| == (if width > least + sign then width else least + sign)
    && (left ==> r.spaces <= 1) && (!left ==> r.rest == "") && (zero && !left ==> r.spaces <= 1)
  }

  /** What is read in the text of a conversion. */
  function Reread(c: char, s: Spec, word: nat): Reading
    requires word < 0x1_0000_0000_0000_0000 && Converted(c, s, word).Some?
  {
    ReadText(Text(Converted(c, s, word).value))
  }

  /** As many digits as the value has in the radix, or more if the precision or an octal 0 asks for them; `sign` characters in front. */
  predicate Padded(r: Reading, s: Spec, value: nat, radix: nat, extra: bool, sign: nat)
    requires radix >= 2
  {
    PaddedTo(r, s.left, s.zero, s.width, Least(value, radix, s.precision, extra), sign)
  }

  function Least(value: nat, radix: nat, precision: int, extra: bool): nat
    requires radix >= 2
  {
    var k := DigitCount(value, radix);
    if precision > k then precision else if extra then k + 1 else k
  }

  /** The same digits are needed of a number without a sign. */
  lemma {:induction false} NeededIsLeast(n: Number, precision: int, extra: bool)
    requires n.Ok() && precision != 0 && n.precision == (if precision < 0 then 1 else precision)
    requires extra == (n.flags.leadingZero && (n.value != 0 || !n.flags.noPrefixOnZero))
    ensures Needed(n) == Least(n.value, n.radix, precision, extra)
  {
    DigitCountWidth(n.value, n.radix);
  }

  /** x and X print the word in radix 16, with 0x or 0X in front if asked for, but not of zero. */
  lemma {:induction false} HexReadsBack(c: char, s: Spec, word: nat)
    requires word < 0x1_0000_0000_0000_0000 && s.precision != 0 && (c == 'x' || c == 'X')
    ensures var r := Reread(c, s, word);
      && r.sign == (if !s.alternative || word == 0 then "" else if c == 'x' then "0x" else "0X")
      && Meaning(r, 16) == word && InCase(r.digits, c == 'X') && Padded(r, s, word, 16, false, |r.sign|)
  {
    NeededIsLeast(Converted(c, s, word).value, s.precision, false);
    NumberReadsBack(Converted(c, s, word).value, Reread(c, s, word));
  }

  /** u prints it in radix 10. */
  lemma {:induction false} DecimalReadsBack(s: Spec, word: nat)
    requires word < 0x1_0000_0000_0000_0000 && s.precision != 0
    ensures var r := Reread('u', s, word); r.sign == "" && Meaning(r, 10) == word && Padded(r, s, word, 10, false, 0)
  {
    NeededIsLeast(Converted('u', s, word).value, s.precision, false);
    NumberReadsBack(Converted('u', s, word).value, Reread('u', s, word));
  }

  /** o prints it in radix 8, with a digit 0 first if asked for. */
  lemma {:induction false} OctalReadsBack(s: Spec, word: nat)
    requires word < 0x1_0000_0000_0000_0000 && s.precision != 0
    ensures var r := Reread('o', s, word);
      && r.sign == "" && Meaning(r, 8) == word && Padded(r, s, word, 8, s.alternative && word != 0, 0) && (s.alternative ==> r.digits != "" && r.digits[0] == '0')
  {
    NeededIsLeast(Converted('o', s, word).value, s.precision, s.alternative && word != 0);
    NumberReadsBack(Converted('o', s, word).value, Reread('o', s, word));
  }

  /** d and i print the signed number, with a minus if it is negative, else the plus or space asked for. */
  lemma {:induction false} IntegerReadsBack(c: char, s: Spec, word: nat)
    requires word < 0x1_0000_0000_0000_0000 && s.precision != 0 && (c == 'd' || c == 'i')
    ensures var r := Reread(c, s, word);
      && r.sign == (if Signed(word) < 0 then "-" else if s.plus then "+" else "")
      && (Signed(word) >= 0 && s.space && !s.plus ==> r.spaces > 0)
      && Meaning(r, 10) == Signed(word)
      && Padded(r, s, Size(Signed(word)), 10, false, if Signed(word) < 0 || s.plus || s.space then 1 else 0)
  {
    IntegerFields(c, s, word);
    NeededIsLeast(Converted(c, s, word).value, s.precision, false);
    NumberReadsBack(Converted(c, s, word).value, Reread(c, s, word));
  }

  function Size(x: int): nat { if x < 0 then 0 - x else x }

  lemma {:induction false} IntegerFields(c: char, s: Spec, word: nat)
    requires word < 0x1_0000_0000_0000_0000 && s.precision != 0 && (c == 'd' || c == 'i')
    ensures Converted(c, s, word).Some?
    ensures var n := Converted(c, s, word).value;
      && n.radix == 10 && (if n.negative then 0 - n.value else n.value) == Signed(word) && (n.negative <==> Signed(word) < 0)
      && InFront(n) == (if Signed(word) < 0 then "-" else if s.plus then "+" else if s.space then " " else "")
      && n.flags.left == s.left && n.flags.zero == s.zero && n.width == s.width
      && n.value == Size(Signed(word)) && n.precision == (if s.precision < 0 then 1 else s.precision) && !n.flags.leadingZero
  {
    MagnitudeMeans(word);
  }

  lemma {:induction false} MagnitudeMeans(word: nat)
    requires word < 0x1_0000_0000_0000_0000
    ensures Signed(word) == if word >= 0x8000_0000_0000_0000 then 0 - (0x1_0000_0000_0000_0000 - word) else word
  {
  }

  /** %.0d of 100 prints 1. */
  lemma {:induction false} PrecisionZeroCuts()
    ensures var n := Number(100, 10, Flags(false, false, false, false, false), 0, 0, 0, false);
      n.Ok() && Length(n) == 3 && Text(n) == "1"
  {
    var n := Number(100, 10, Flags(false, false, false, false, false), 0, 0, 0, false);
    DigitsOfHundred();
    assert Printed(n) == [1];
    assert Sign(n) == "" by { Prefixes(); }
    assert Chars([1], false) == "" + "1";
    assert Length(n) == 3 && Gap(n) == 0;
    assert Text(n) == "" + "" + "" + "" + "1" + "";
  }

  lemma {:induction false} DigitsOfHundred()
    ensures DigitCount(100, 10) == 3 && Emitted(100, 10, 3, 0) == [1]
  {
    Division.QuotUnique(10, 100, 10, 0);
    Division.QuotUnique(10, 10, 1, 0);
    assert DigitCount(10, 10) == 2;
    PowNext(10, 2);
    PowNext(10, 1);
    Division.QuotUnique(100, 100, 1, 0);
    assert Emitted(0, 10, 2, 0) == [];
    assert Emitted(100, 10, 3, 0) == [1] + Emitted(0, 10, 2, 0);
  }

  /** %-5.0d of 0 prints nothing, not five spaces. */
  lemma {:induction false} EmptySkipsPadding()
    ensures var n := Number(0, 10, Flags(true, false, false, false, false), 5, 0, 0, false);
      n.Ok() && Length(n) == 0 && Text(n) == ""
  {
    Prefixes();
  }
}
