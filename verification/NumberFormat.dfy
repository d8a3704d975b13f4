/** Integer conversions of the two printf functions: one divides by falling powers of the base, the other masks out
    nibbles, and both print the canonical digits. */
module NumberFormat {
  import opened Division
  import opened Words

  // ------------------------------------------------------------------ canonical digits

  /** The digits of v, most significant first, without leading zeros. */
  function Digits(v: nat, base: nat): (ds: seq<nat>)
    requires base >= 2
    ensures ds != [] && forall i :: 0 <= i < |ds| ==> ds[i] < base
    decreases v
  {
    if v < base then [v] else
      Shrinks(v, base);
      Digits(v / base, base) + [v % base]
  }

  /** The number a row of digits stands for. */
  function ValueOf(ds: seq<nat>, base: nat): nat {
    if ds == [] then 0 else ValueOf(ds[..|ds| - 1], base) * base + ds[|ds| - 1]
  }

  lemma {:induction false} DigitsReadBack(v: nat, base: nat)
    requires base >= 2
    ensures ValueOf(Digits(v, base), base) == v
    ensures |Digits(v, base)| > 1 ==> Digits(v, base)[0] != 0
    decreases v
  {
    var ds := Digits(v, base);
    if v >= base {
      Shrinks(v, base);
      DigitsReadBack(v / base, base);
      assert ds[..|ds| - 1] == Digits(v / base, base);
      if |Digits(v / base, base)| == 1 {
        assert Digits(v / base, base)[0] == v / base;
      }
    } else {
      assert ds[..0] == [];
    }
  }

  function DigitChar(d: nat, upper: bool): char
    requires d < 16
  {
    if d <= 9 then '0' + d as char else (if upper then 'A' else 'a') + (d - 10) as char
  }

  /** The sixteen digit characters in order. */
  lemma DigitCharIs(d: nat, upper: bool)
    requires d < 16
    ensures DigitChar(d, upper) == (if upper then "0123456789ABCDEF" else "0123456789abcdef")[d]
  {
    if d <= 9 {
      assert DigitChar(d, upper) == "0123456789"[d];
    }
  }

  /** The number a digit character stands for, in either case. */
  function DigitOf(c: char): nat {
    if '0' <= c <= '9' then (c - '0') as nat
    else if 'A' <= c <= 'F' then (c - 'A') as nat + 10
    else if 'a' <= c <= 'f' then (c - 'a') as nat + 10
    else 0
  }

  ghost predicate AllBelow(ds: seq<nat>, base: nat) {
    forall i :: 0 <= i < |ds| ==> ds[i] < base
  }

  function Chars(ds: seq<nat>, upper: bool): (s: string)
    requires AllBelow(ds, 16)
    ensures |s| == |ds| && forall i :: 0 <= i < |s| ==> s[i] == DigitChar(ds[i], upper)
  {
    seq(|ds|, i requires 0 <= i < |ds| => DigitChar(ds[i], upper))
  }

  /** The characters of v in the base. */
  function Shown(v: nat, base: nat, upper: bool): string
    requires 2 <= base <= 16
  {
    Chars(Digits(v, base), upper)
  }

  // ------------------------------------------------------------------ dividing by falling powers

  function Power(base: nat, k: nat): (p: nat)
    requires base >= 1
    ensures p >= 1
  {
    if k == 0 then 1 else
      AtLeastOnce(Power(base, k - 1), base);
      Power(base, k - 1) * base
  }

  /** What the printing loop emits, from the power base^k down. */
  function Falling(v: nat, base: nat, k: nat): seq<nat>
    requires base >= 2
    decreases k
  {
    [v / Power(base, k)] + if k == 0 then [] else Falling(v % Power(base, k), base, k - 1)
  }

  /** The falling digits of v are those of v / base followed by the last one. */
  lemma {:induction false} FallingShift(v: nat, base: nat, k: nat)
    requires base >= 2 && k > 0
    ensures Falling(v, base, k) == Falling(v / base, base, k - 1) + [v % base]
    decreases k
  {
    var p := Power(base, k - 1);
    assert Power(base, k) == base * p;
    DivDiv(v, base, p);
    if k == 1 {
      assert Falling(v % base, base, 0) == [v % base];
    } else {
      FallingShift(v % (base * p), base, k - 1);
    }
  }

  /** Started at the largest power not above v, the falling digits are the canonical ones. */
  lemma {:induction false} FallingIsDigits(v: nat, base: nat, k: nat)
    requires base >= 2
    requires v < Power(base, k) * base && (k > 0 ==> Power(base, k) <= v)
    ensures Falling(v, base, k) == Digits(v, base)
    decreases k
  {
    if k > 0 {
      var p := Power(base, k - 1);
      assert Power(base, k) == base * p;
      FallingShift(v, base, k);
      DivDiv(v, base, p);
      Bounds(v, base, p);
      FallingIsDigits(v / base, base, k - 1);
    }
  }

  lemma Bounds(v: nat, base: nat, p: nat)
    requires base >= 2 && p >= 1 && base * p <= v < base * p * base
    ensures v >= base && p <= v / base < p * base
  {
    AtLeastOnce(p, base);
    Shrinks(v, base);
    var q := v / base;
    LessByFactor(p, q + 1, base);
    LessByFactor(q, p * base, base);
  }

  // ------------------------------------------------------------------ the nibbles of a word

  /** The four bits that the mask 0xF << 4 * k leaves of v, moved down. */
  function Nibble(v: nat, k: nat): (d: nat)
    ensures d < 16
  {
    Shrinks(v / Power(16, k), 16);
    v / Power(16, k) % 16
  }

  function Nibbles(v: nat, k: nat): (ds: seq<nat>)
    ensures AllBelow(ds, 16)
  {
    [Nibble(v, k)] + if k == 0 then [] else Nibbles(v, k - 1)
  }

  /** Masking out nibbles and dividing by falling powers of sixteen pick the same digits. */
  lemma {:induction false} NibblesAreFalling(v: nat, k: nat)
    ensures Nibbles(v, k) == Falling(v % Power(16, k + 1), 16, k)
  {
    var p := Power(16, k);
    assert Power(16, k + 1) == p * 16;
    DivDiv(v, p, 16);
    if k > 0 {
      NibblesAreFalling(v, k - 1);
    }
  }

  // ------------------------------------------------------------------ the bits of a word

  /** The low n bits of v, least significant first. */
  function Bits(v: nat, n: nat): (bs: seq<bool>)
    ensures |bs| == n
  {
    if n == 0 then [] else [v % 2 == 1] + Bits(v / 2, n - 1)
  }

  function ValueOfBits(bs: seq<bool>): nat {
    if bs == [] then 0 else (if bs[0] then 1 else 0) + 2 * ValueOfBits(bs[1..])
  }

  lemma {:induction false} BitsReadBack(v: nat, n: nat)
    requires v < Power(2, n)
    ensures ValueOfBits(Bits(v, n)) == v
  {
    if n > 0 {
      BitsReadBack(v / 2, n - 1);
      assert Bits(v, n)[1..] == Bits(v / 2, n - 1);
    }
  }

  /** v & (0xF << s) for a 32-bit word: the mask has ones at the places s to s + 3. */
  function Masked(v: u32, s: nat): (bs: seq<bool>)
    requires s <= 28
    ensures |bs| == 32 && forall i :: 0 <= i < 32 ==> bs[i] == (Bits(v, 32)[i] && s <= i < s + 4)
  {
    seq(32, i requires 0 <= i < 32 => Bits(v, 32)[i] && s <= i < s + 4)
  }

  /** Moving down by s places. */
  function ShiftedRight(bs: seq<bool>, s: nat): seq<bool>
    requires s <= |bs|
  {
    bs[s..]
  }

  lemma {:induction false} ZeroBits(bs: seq<bool>)
    ensures ValueOfBits(bs) == 0 <==> forall i :: 0 <= i < |bs| ==> !bs[i]
  {
    if bs != [] {
      ZeroBits(bs[1..]);
      assert forall i :: 0 < i < |bs| ==> bs[i] == bs[1..][i - 1];
    }
  }

  /** The mask leaves nothing exactly if what it leaves is nothing when moved down. */
  lemma MaskedZeroIff(v: u32, s: nat)
    requires s <= 28
    ensures ValueOfBits(Masked(v, s)) == 0 <==> ValueOfBits(ShiftedRight(Masked(v, s), s)) == 0
  {
    var bs := Masked(v, s);
    ZeroBits(bs);
    ZeroBits(bs[s..]);
    assert forall i :: s <= i < 32 ==> bs[i] == bs[s..][i - s];
  }

  lemma DropFour(v: nat, n: nat)
    requires n >= 4
    ensures Bits(v, n)[4..] == Bits(v / 16, n - 4)
  {
    assert Bits(v, n)[1..] == Bits(v / 2, n - 1);
    assert Bits(v / 2, n - 1)[1..] == Bits(v / 2 / 2, n - 2);
    assert Bits(v / 2 / 2, n - 2)[1..] == Bits(v / 2 / 2 / 2, n - 3);
    assert Bits(v / 2 / 2 / 2, n - 3)[1..] == Bits(v / 2 / 2 / 2 / 2, n - 4);
    assert v / 2 / 2 / 2 / 2 == v / 16;
  }

  lemma NextPower(v: nat, k: nat)
    requires k > 0
    ensures v / Power(16, k) == v / 16 / Power(16, k - 1) >= 0
  {
    DivDiv(v, 16, Power(16, k - 1));
    assert Power(16, k) == 16 * Power(16, k - 1);
    NotBelowZero(v, Power(16, k));
  }

  lemma NotBelowZero(v: nat, d: nat)
    requires d > 0
    ensures v / d >= 0
  {
  }

  lemma {:induction false} DropNibbles(v: nat, n: nat, k: nat, w: nat)
    requires 4 * k <= n && w == v / Power(16, k)
    ensures Bits(v, n)[4 * k..] == Bits(w, n - 4 * k)
    decreases k
  {
    if k > 0 {
      NextPower(v, k);
      DropFour(v, n);
      DropNibbles(v / 16, n - 4, k - 1, w);
      assert Bits(v, n)[4..][4 * (k - 1)..] == Bits(v, n)[4 * k..];
    }
  }

  function BitValue(b: bool): nat {
    if b then 1 else 0
  }

  lemma FourBits(bs: seq<bool>)
    requires |bs| >= 4 && ValueOfBits(bs[4..]) == 0
    ensures ValueOfBits(bs) == BitValue(bs[0]) + 2 * BitValue(bs[1]) + 4 * BitValue(bs[2]) + 8 * BitValue(bs[3])
  {
    assert bs[1..][1..] == bs[2..] && bs[2..][1..] == bs[3..] && bs[3..][1..] == bs[4..];
    assert ValueOfBits(bs[3..]) == BitValue(bs[3]);
    assert ValueOfBits(bs[2..]) == BitValue(bs[2]) + 2 * BitValue(bs[3]);
    assert ValueOfBits(bs[1..]) == BitValue(bs[1]) + 2 * BitValue(bs[2]) + 4 * BitValue(bs[3]);
  }

  lemma LowDigits(w: nat)
    ensures w % 16 == w % 2 + 2 * (w / 2 % 2) + 4 * (w / 4 % 2) + 8 * (w / 8 % 2)
  {
    HalfOfSixteen(w);
    HalfOfEight(w / 2);
    HalfOfFour(w / 4);
    Halves(w);
  }

  lemma HalfOfSixteen(w: nat)
    ensures w % 16 == w % 2 + 2 * (w / 2 % 8)
  {
  }

  lemma HalfOfEight(w: nat)
    ensures w % 8 == w % 2 + 2 * (w / 2 % 4)
  {
  }

  lemma HalfOfFour(w: nat)
    ensures w % 4 == w % 2 + 2 * (w / 2 % 2)
  {
  }

  /** The low four bits alone are the remainder by sixteen. */
  lemma LowFour(w: nat, bs: seq<bool>)
    requires |bs| >= 4 && forall i :: 0 <= i < |bs| ==> bs[i] == (Bits(w, |bs|)[i] && i < 4)
    ensures ValueOfBits(bs) == w % 16
  {
    ZeroBits(bs[4..]);
    FourBits(bs);
    LowDigits(w);
    LowBits(w, |bs|);
  }

  lemma NextBit(w: nat, n: nat, i: nat)
    requires 0 < i < n
    ensures Bits(w, n)[i] == Bits(w / 2, n - 1)[i - 1]
  {
  }

  lemma Halves(w: nat)
    ensures w / 2 / 2 == w / 4 && w / 4 / 2 == w / 8
  {
  }

  lemma LowBits(w: nat, n: nat)
    requires n >= 4
    ensures Bits(w, n)[0] == (w % 2 == 1) && Bits(w, n)[1] == (w / 2 % 2 == 1)
    ensures Bits(w, n)[2] == (w / 4 % 2 == 1) && Bits(w, n)[3] == (w / 8 % 2 == 1)
  {
    Halves(w);
    NextBit(w, n, 1);
    NextBit(w, n, 2);
    NextBit(w, n, 3);
    NextBit(w / 2, n - 1, 1);
    NextBit(w / 2, n - 1, 2);
    NextBit(w / 4, n - 2, 1);
  }

  /** Masking a nibble out and moving it down is dividing by the power of sixteen and taking the remainder. */
  lemma MaskAndShift(v: u32, k: nat)
    requires k < 8
    ensures ValueOfBits(ShiftedRight(Masked(v, 4 * k), 4 * k)) == Nibble(v, k)
    ensures ValueOfBits(Masked(v, 4 * k)) == 0 <==> Nibble(v, k) == 0
  {
    NotBelowZero(v, Power(16, k));
    MaskedNibble(v, k, v / Power(16, k));
    MaskedZeroIff(v, 4 * k);
  }

  lemma MaskedUpper(v: u32, s: nat, i: nat)
    requires s <= 28 && i < 32 - s
    ensures ShiftedRight(Masked(v, s), s)[i] == (Bits(v, 32)[s..][i] && i < 4)
  {
  }

  lemma MaskedNibble(v: u32, k: nat, w: nat)
    requires k < 8 && w == v / Power(16, k)
    ensures ValueOfBits(ShiftedRight(Masked(v, 4 * k), 4 * k)) == w % 16
  {
    var s := 4 * k;
    var bs := ShiftedRight(Masked(v, s), s);
    DropNibbles(v, 32, k, w);
    forall i | 0 <= i < |bs|
      ensures bs[i] == (Bits(w, |bs|)[i] && i < 4)
    {
      MaskedUpper(v, s, i);
    }
    LowFour(w, bs);
  }

  // ------------------------------------------------------------------ fields

  /** What an integer directive asks for; the width is negative when none was given. */
  datatype Style = Style(leadingZero: bool, width: int, base: nat, isSigned: bool, upper: bool) {
    ghost predicate Valid() {
      2 <= base <= 16
    }
  }

  /** The number a 32-bit argument stands for. */
  function Given(arg: u32, isSigned: bool): int {
    if isSigned && arg >= 0x8000_0000 then arg - U32 else arg
  }

  /** It is the only number of the range of a C int, or unsigned int, that is the argument modulo 2^32. */
  lemma GivenIff(arg: u32, isSigned: bool, x: int)
    ensures x == Given(arg, isSigned) <==>
            (if isSigned then -0x8000_0000 <= x < 0x8000_0000 else 0 <= x < U32) && x % U32 == arg
  {
    if -U32 < x < 0 {
      assert x % U32 == x + U32;
    }
  }

  function Abs(x: int): nat {
    if x < 0 then -x else x
  }

  function Repeated(c: char, r: int): (s: string)
    ensures |s| == (if r > 0 then r else 0) && forall i :: 0 <= i < |s| ==> s[i] == c
  {
    if r <= 0 then "" else [c] + Repeated(c, r - 1)
  }

  /** What comes before the digits when there is the given room: zeros go after the sign and blanks before it. */
  function Lead(negative: bool, leadingZero: bool, room: int): string {
    var sign := Sign(negative);
    if leadingZero then sign + Repeated('0', room - |sign|) else Repeated(' ', room - |sign|) + sign
  }

  function Sign(negative: bool): string {
    if negative then "-" else ""
  }

  function Padded(digits: string, negative: bool, leadingZero: bool, width: int): string {
    Lead(negative, leadingZero, width - |digits|) + digits
  }

  function Field(x: int, f: Style): string
    requires f.Valid()
  {
    Padded(Shown(Abs(x), f.base, f.upper), x < 0, f.leadingZero, f.width)
  }

  /** A reader for fields: blanks, an optional sign, then digits of the base. */
  function ReadField(s: string, base: nat): int {
    if s == "" then 0
    else if s[0] == ' ' then ReadField(s[1..], base)
    else if s[0] == '-' then 0 - ReadDigits(s[1..], base)
    else ReadDigits(s, base)
  }

  function ReadDigits(s: string, base: nat): nat {
    if s == "" then 0 else ReadDigits(s[..|s| - 1], base) * base + DigitOf(s[|s| - 1])
  }

  lemma DigitCharReadBack(d: nat, upper: bool)
    requires d < 16
    ensures DigitOf(DigitChar(d, upper)) == d
    ensures DigitChar(d, upper) != ' ' && DigitChar(d, upper) != '-' && DigitChar(d, upper) != '%'
    ensures DigitChar(d, upper) == '0' <==> d == 0
  {
  }

  lemma {:induction false} CharsReadBack(ds: seq<nat>, base: nat, upper: bool)
    requires AllBelow(ds, 16)
    ensures ReadDigits(Chars(ds, upper), base) == ValueOf(ds, base)
  {
    if ds != [] {
      var n := |ds| - 1;
      assert Chars(ds, upper)[..n] == Chars(ds[..n], upper);
      CharsReadBack(ds[..n], base, upper);
      DigitCharReadBack(ds[n], upper);
    }
  }

  /** Zeros in front do not change what is read. */
  lemma {:induction false} ZerosInFront(r: int, s: string, base: nat)
    ensures ReadDigits(Repeated('0', r) + s, base) == ReadDigits(s, base)
    decreases r, |s|
  {
    var t := Repeated('0', r) + s;
    if s != "" {
      assert t[..|t| - 1] == Repeated('0', r) + s[..|s| - 1];
      ZerosInFront(r, s[..|s| - 1], base);
    } else if r > 0 {
      OneZeroLess(r);
      assert t == Repeated('0', r) && t[..|t| - 1] == Repeated('0', r - 1) + "";
      ZerosInFront(r - 1, "", base);
    }
  }

  lemma OneZeroLess(r: int)
    requires r > 0
    ensures Repeated('0', r)[..r - 1] == Repeated('0', r - 1)
  {
  }

  lemma {:induction false} BlanksInFront(r: int, s: string, base: nat)
    ensures ReadField(Repeated(' ', r) + s, base) == ReadField(s, base)
  {
    if r > 0 {
      var t := Repeated(' ', r) + s;
      assert t[1..] == Repeated(' ', r - 1) + s;
      BlanksInFront(r - 1, s, base);
    } else {
      assert Repeated(' ', r) + s == s;
    }
  }

  lemma SignInFront(negative: bool, digits: string, base: nat)
    requires digits != "" && digits[0] != ' ' && digits[0] != '-'
    ensures ReadField(Sign(negative) + digits, base)
         == if negative then 0 - ReadDigits(digits, base) else ReadDigits(digits, base)
  {
    if negative {
      assert ("-" + digits)[1..] == digits;
    } else {
      assert "" + digits == digits;
    }
  }

  lemma Regroup(a: string, b: string, c: string)
    ensures a + b + c == a + (b + c)
  {
  }

  lemma StaysUnsigned(r: int, digits: string)
    requires digits != "" && digits[0] != ' ' && digits[0] != '-'
    ensures var s := Repeated('0', r) + digits; s != "" && s[0] != ' ' && s[0] != '-'
  {
  }

  lemma PaddedShape(digits: string, negative: bool, width: int)
    ensures var sign, room := Sign(negative), width - |digits| - |Sign(negative)|;
      && Padded(digits, negative, true, width) == sign + (Repeated('0', room) + digits)
      && Padded(digits, negative, false, width) == Repeated(' ', room) + (sign + digits)
  {
    var sign, room := Sign(negative), width - |digits| - |Sign(negative)|;
    Regroup(sign, Repeated('0', room), digits);
    Regroup(Repeated(' ', room), sign, digits);
  }

  lemma ZeroPaddedReadsBack(digits: string, negative: bool, width: int, base: nat)
    requires digits != "" && digits[0] != ' ' && digits[0] != '-'
    ensures ReadField(Padded(digits, negative, true, width), base)
         == if negative then 0 - ReadDigits(digits, base) else ReadDigits(digits, base)
  {
    var room := width - |digits| - |Sign(negative)|;
    PaddedShape(digits, negative, width);
    ZerosInFront(room, digits, base);
    StaysUnsigned(room, digits);
    SignInFront(negative, Repeated('0', room) + digits, base);
  }

  lemma BlankPaddedReadsBack(digits: string, negative: bool, width: int, base: nat)
    requires digits != "" && digits[0] != ' ' && digits[0] != '-'
    ensures ReadField(Padded(digits, negative, false, width), base)
         == if negative then 0 - ReadDigits(digits, base) else ReadDigits(digits, base)
  {
    var room := width - |digits| - |Sign(negative)|;
    PaddedShape(digits, negative, width);
    SignInFront(negative, digits, base);
    BlanksInFront(room, Sign(negative) + digits, base);
  }

  /** Reading a field gives back the number that was printed, and a field is as long as the wider of its width and
      the sign and digits of the number. */
  lemma FieldReadsBack(x: int, f: Style)
    requires f.Valid()
    ensures ReadField(Field(x, f), f.base) == x
    ensures var own := |Digits(Abs(x), f.base)| + if x < 0 then 1 else 0;
            |Field(x, f)| == if f.width > own then f.width else own
  {
    var ds := Digits(Abs(x), f.base);
    CharsReadBack(ds, f.base, f.upper);
    DigitsReadBack(Abs(x), f.base);
    DigitCharReadBack(ds[0], f.upper);
    if f.leadingZero {
      ZeroPaddedReadsBack(Chars(ds, f.upper), x < 0, f.width, f.base);
    } else {
      BlankPaddedReadsBack(Chars(ds, f.upper), x < 0, f.width, f.base);
    }
  }

  /** So the argument is known from what is printed for it. */
  lemma ArgumentReadsBack(arg: u32, f: Style)
    requires f.Valid()
    ensures ReadField(Field(Given(arg, f.isSigned), f), f.base) % U32 == arg
    ensures f.isSigned && arg >= 0x8000_0000 ==> Field(Given(arg, f.isSigned), f) != Field(arg, f)
  {
    FieldReadsBack(Given(arg, f.isSigned), f);
    FieldReadsBack(arg, f);
    GivenIff(arg, f.isSigned, Given(arg, f.isSigned));
  }

  lemma At(a: string, b: string, c: string, i: nat)
    requires i < |a + (b + c)|
    ensures (a + (b + c))[i]
         == if i < |a| then a[i] else if i < |a| + |b| then b[i - |a|] else c[i - |a| - |b|]
  {
  }

  lemma ZeroPaddedAt(digits: string, negative: bool, width: int, i: nat)
    requires i < |Padded(digits, negative, true, width)|
    ensures var s := Padded(digits, negative, true, width);
      var lead := |s| - |digits|;
      lead >= 0 && s[i] == if i >= lead then digits[i - lead] else if negative && i == 0 then '-' else '0'
  {
    var sign, zeros := Sign(negative), Repeated('0', width - |digits| - |Sign(negative)|);
    PaddedShape(digits, negative, width);
    At(sign, zeros, digits, i);
  }

  lemma BlankPaddedAt(digits: string, negative: bool, width: int, i: nat)
    requires i < |Padded(digits, negative, false, width)|
    ensures var s := Padded(digits, negative, false, width);
      var lead := |s| - |digits|;
      lead >= 0 && s[i] == if i >= lead then digits[i - lead] else if negative && i == lead - 1 then '-' else ' '
  {
    var sign, blanks := Sign(negative), Repeated(' ', width - |digits| - |Sign(negative)|);
    PaddedShape(digits, negative, width);
    At(blanks, sign, digits, i);
  }

  /** A field from left to right: blanks and the sign, or the sign and zeros, and then the digits. */
  lemma FieldShape(x: int, f: Style, i: nat)
    requires f.Valid() && i < |Field(x, f)|
    ensures var digits := Shown(Abs(x), f.base, f.upper);
      var lead := |Field(x, f)| - |digits|;
      lead >= 0 && Field(x, f)[i] == (if i >= lead then digits[i - lead]
                                      else if x < 0 && i == (if f.leadingZero then 0 else lead - 1) then '-'
                                      else if f.leadingZero then '0' else ' ')
  {
    if f.leadingZero {
      ZeroPaddedAt(Shown(Abs(x), f.base, f.upper), x < 0, f.width, i);
    } else {
      BlankPaddedAt(Shown(Abs(x), f.base, f.upper), x < 0, f.width, i);
    }
  }

  // ------------------------------------------------------------------ the two printing loops

  method RepChar(c: char, r: int) returns (out: string)
    ensures out == Repeated(c, r)
  {
    out := "";
    var left := r;
    while left > 0
      invariant out + Repeated(c, left) == Repeated(c, r)
    {
      left := left - 1;
      out := out + [c];
    }
  }

  /** Counts the digits of v and finds the place value of the first; the 32-bit product never wraps round. */
  method CountDigits(v: u32, base: nat) returns (p: u32, digitCount: nat)
    requires 2 <= base <= 16
    ensures digitCount == |Digits(v, base)| && p == Power(base, digitCount - 1)
    ensures Falling(v, base, digitCount - 1) == Digits(v, base)
    ensures v < p * base
  {
    var vShrink := v;
    p := 1;
    digitCount := 1;
    while vShrink / base > 0
      invariant digitCount > 0 && p == Power(base, digitCount - 1)
      invariant vShrink == v / p
      invariant digitCount > 1 ==> p <= v
      decreases vShrink
    {
      NextPlace(v, p, base);
      Shrinks(vShrink, base);
      vShrink := vShrink / base;
      digitCount := digitCount + 1;
      p := p * base % U32;
    }
    NextPlace(v, p, base);
    FallingIsDigits(v, base, digitCount - 1);
    FallingLength(v, base, digitCount - 1);
  }

  /** One more division leaves something exactly when the next place value fits. */
  lemma NextPlace(v: nat, p: nat, base: nat)
    requires p > 0 && base > 0
    ensures p * base > 0 && v / (p * base) == v / p / base
    ensures v / p / base > 0 <==> p * base <= v
  {
    DivDiv(v, p, base);
    var m := p * base;
    if v / m > 0 {
      ProductFits(v, m);
    } else {
      ProductExceeds(v, m);
    }
  }

  lemma ProductFits(v: nat, m: nat)
    requires m > 0 && v / m > 0
    ensures m <= v
  {
  }

  lemma ProductExceeds(v: nat, m: nat)
    requires m > 0 && v / m <= 0
    ensures v < m
  {
  }

  lemma {:induction false} FallingLength(v: nat, base: nat, k: nat)
    requires base >= 2
    ensures |Falling(v, base, k)| == k + 1
    decreases k
  {
    if k > 0 {
      FallingLength(v % Power(base, k), base, k - 1);
    }
  }

  lemma OneMoreChar(out: string, rest: seq<nat>, upper: bool)
    requires rest != [] && AllBelow(rest, 16)
    ensures out + Chars(rest, upper) == out + [DigitChar(rest[0], upper)] + Chars(rest[1..], upper)
  {
  }

  /** Prints the digits ds by dividing by falling powers; the last division of p leaves zero. */
  method PrintDigits(value: u32, place: u32, base: nat, upper: bool, ghost k: nat, ghost ds: seq<nat>)
    returns (out: string)
    requires 2 <= base <= 16 && place == Power(base, k) && value < place * base
    requires AllBelow(ds, base) && ds == Falling(value, base, k)
    ensures out == Chars(ds, upper)
  {
    out := "";
    var v: u32, p: u32 := value, place;
    ghost var left: int, rest := k, ds;
    while p > 0
      invariant -1 <= left && p == if left < 0 then 0 else Power(base, left)
      invariant p > 0 ==> v < p * base
      invariant AllBelow(rest, base) && out + Chars(rest, upper) == Chars(ds, upper)
      invariant rest == if left < 0 then [] else Falling(v, base, left)
      decreases left
    {
      LowerPlace(v, p, base, left);
      var d := v / p;
      OneMoreChar(out, rest, upper);
      rest := rest[1..];
      out := out + [DigitChar(d, upper)];
      v := v % p;
      p := p / base;
      left := left - 1;
    }
  }

  lemma QuotientBelow(v: nat, p: nat, base: nat)
    requires p > 0 && v < p * base
    ensures v / p < base
  {
  }

  lemma LowerPlace(v: nat, p: nat, base: nat, k: nat)
    requires base >= 2 && p == Power(base, k) && v < p * base
    ensures v / p < base && v % p < p && 0 <= p / base <= p
    ensures k == 0 ==> p / base == 0 && Falling(v, base, k) == [v / p]
    ensures k > 0 ==> p / base == Power(base, k - 1) && v % p < p / base * base
    ensures k > 0 ==> Falling(v, base, k) == [v / p] + Falling(v % p, base, k - 1)
  {
    QuotientBelow(v, p, base);
    Shrinks(p, base);
    if k > 0 {
      DivUnique(p, Power(base, k - 1), 0, base);
    }
  }

  method PrintLead(sign: bool, leadingZero: bool, columns: int) returns (out: string)
    ensures out == Lead(sign, leadingZero, columns)
  {
    var room := columns;
    if leadingZero {
      out := "";
      if sign {
        out := "-";
        room := room - 1;
      }
      var pad := RepChar('0', room);
      out := out + pad;
    } else {
      if sign {
        room := room - 1;
      }
      out := RepChar(' ', room);
      if sign {
        out := out + "-";
      }
    }
  }

  /** Two's complement is undone for negative numbers: all bits flipped, and one added. */
  method StripSign(arg: u32, isSigned: bool) returns (v: u32, sign: bool)
    ensures v == Abs(Given(arg, isSigned)) && (sign <==> Given(arg, isSigned) < 0)
  {
    v, sign := arg, false;
    if isSigned && v >= 0x8000_0000 {
      v := (U32 - 1 - v + 1) % U32;
      sign := true;
    }
  }

  /** Prints an integer directive. */
  method PrintInteger(arg: u32, f: Style) returns (out: string)
    requires f.Valid()
    ensures out == Field(Given(arg, f.isSigned), f)
  {
    var v, sign := StripSign(arg, f.isSigned);
    var p, digitCount := CountDigits(v, f.base);
    out := PrintLead(sign, f.leadingZero, f.width - digitCount);
    var number := PrintDigits(v, p, f.base, f.upper, digitCount - 1, Digits(v, f.base));
    out := out + number;
  }

  method PrintNibbles(v: u32, shift: nat, ghost first: nat) returns (out: string)
    requires first < 8 && shift == 4 * first
    ensures out == Chars(Nibbles(v, first), false)
  {
    out := "";
    var digitShift: int := shift;
    ghost var rest, place: int := Nibbles(v, first), first;
    while digitShift >= 0
      invariant -1 <= place < 8 && digitShift == 4 * place
      invariant AllBelow(rest, 16) && out + Chars(rest, false) == Chars(Nibbles(v, first), false)
      invariant rest == if place < 0 then [] else Nibbles(v, place)
      decreases place
    {
      MaskAndShift(v, place);
      var digit := ValueOfBits(ShiftedRight(Masked(v, digitShift), digitShift));
      OneMoreChar(out, rest, false);
      rest := rest[1..];
      out := out + [DigitChar(digit, false)];
      digitShift, place := digitShift - 4, place - 1;
    }
  }

  /** The %x of alt_printf: from the first nibble that is not zero, print every nibble. */
  method PrintHex(v: u32) returns (out: string)
    ensures out == Shown(v, 16, false)
  {
    if v == 0 {
      return "0";
    }
    var digitShift := 28;
    ghost var place := 7;
    WordFits(v);
    MaskAndShift(v, place);
    while ValueOfBits(Masked(v, digitShift)) == 0
      invariant 0 <= place < 8 && digitShift == 4 * place && v < Power(16, place + 1)
      invariant ValueOfBits(Masked(v, digitShift)) == 0 <==> Nibble(v, place) == 0
      decreases place
    {
      TopNibble(v, place);
      digitShift, place := digitShift - 4, place - 1;
      MaskAndShift(v, place);
    }
    TopNibble(v, place);
    NibblesAreFalling(v, place);
    FallingIsDigits(v, 16, place);
    out := PrintNibbles(v, digitShift, place);
  }

  lemma WordFits(v: u32)
    ensures v < Power(16, 8)
  {
    assert Power(16, 4) == 65536;
    assert Power(16, 8) == U32;
  }

  /** The nibble on top of v is zero exactly when v is smaller than its place value. */
  lemma TopNibble(v: nat, k: nat)
    requires v < Power(16, k + 1)
    ensures Power(16, k + 1) == Power(16, k) * 16
    ensures v % Power(16, k + 1) == v
    ensures Nibble(v, k) == 0 <==> v < Power(16, k)
  {
    var p := Power(16, k);
    QuotientBelow(v, p, 16);
    RemUnique(v, 0, v, p * 16);
    if v < p {
      DivUnique(v, 0, v, p);
    } else {
      LessByFactor(0, v / p, p);
    }
  }
}
