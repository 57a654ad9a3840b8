/** Text of tag=value messages: decimal numbers, searching, byte sums. A `char` stands for a byte. */
module FixText {
  import opened Options

  const INT32_MIN := -0x8000_0000
  const INT32_MAX := 0x7FFF_FFFF

  /** A 32-bit signed tag. */
  newtype Tag = t: int | -0x8000_0000 <= t <= 0x7FFF_FFFF

  // ---- decimal numbers ------------------------------------------------------

  predicate IsDigit(c: char) { '0' <= c <= '9' }

  predicate IsSpace(c: char) { c == ' ' || '\t' <= c <= '\r' }

  function DigitOf(d: nat): (c: char)
    requires d < 10
    ensures IsDigit(c) && DigitValue(c) == d
  {
    '0' + d as char
  }

  function DigitValue(c: char): (d: nat)
    requires IsDigit(c)
    ensures d < 10
  {
    c as int - '0' as int
  }

  predicate AllDigits(s: string) { forall i :: 0 <= i < |s| ==> IsDigit(s[i]) }

  function Digits(n: nat): (s: string)
    ensures |s| > 0 && AllDigits(s)
  {
    if n < 10 then [DigitOf(n)] else Digits(n / 10) + [DigitOf(n % 10)]
  }

  function Value(s: string): nat
    requires AllDigits(s)
  {
    if s == "" then 0 else 10 * Value(s[..|s| - 1]) + DigitValue(s[|s| - 1])
  }

  lemma {:induction false} ValueOfDigits(n: nat)
    ensures Value(Digits(n)) == n
  {
    if n >= 10 {
      ValueOfDigits(n / 10);
      assert Digits(n)[..|Digits(n)| - 1] == Digits(n / 10);
    } else {
      assert Digits(n)[..0] == "";
    }
  }

  function ToString(n: int): (s: string)
    ensures |s| > 0 && forall i :: 0 <= i < |s| ==> s[i] == '-' || IsDigit(s[i])
  {
    if n < 0 then "-" + Digits(-n) else Digits(n)
  }

  function TagText(t: Tag): (s: string)
    ensures |s| > 0 && forall i :: 0 <= i < |s| ==> s[i] == '-' || IsDigit(s[i])
  {
    ToString(t as int)
  }

  function DigitPrefix(s: string): (n: nat)
    ensures n <= |s| && AllDigits(s[..n]) && (n < |s| ==> !IsDigit(s[n]))
  {
    if s == "" || !IsDigit(s[0]) then 0 else 1 + DigitPrefix(s[1..])
  }

  function SkipSpace(s: string): string {
    if s != "" && IsSpace(s[0]) then SkipSpace(s[1..]) else s
  }

  function Unsigned(s: string): Option<nat> {
    var n := DigitPrefix(s);
    if n == 0 then None else Some(Value(s[..n]))
  }

  /** `std::stoi`: leading space, a sign, the longest run of digits; `None` where it throws. */
  function Stoi(s: string): Option<Tag> {
    var t := SkipSpace(s);
    var negative := t != "" && t[0] == '-';
    var u := if t != "" && (t[0] == '-' || t[0] == '+') then t[1..] else t;
    match Unsigned(u)
    case None => None
    case Some(n) =>
      var m: int := n;
      var v := if negative then -m else m;
      if INT32_MIN <= v <= INT32_MAX then Some(v as Tag) else None
  }

  lemma UnsignedOfDigits(n: nat)
    ensures Unsigned(Digits(n)) == Some(n)
  {
    var s := Digits(n);
    assert DigitPrefix(s) == |s|;
    assert s[..|s|] == s;
    ValueOfDigits(n);
  }

  /** Every tag is read back from its decimal text. */
  lemma StoiOfTagText(t: Tag)
    ensures Stoi(TagText(t)) == Some(t)
  {
    var s := TagText(t);
    assert SkipSpace(s) == s;
    var n := t as int;
    if n < 0 {
      UnsignedOfDigits(-n);
      assert s[1..] == Digits(-n);
    } else {
      UnsignedOfDigits(n);
    }
  }

  lemma StoiBehindSpace(space: string, sign: string, digits: string, rest: string)
    requires forall i :: 0 <= i < |space| ==> space[i] == ' ' || 9 <= space[i] as int <= 13
    requires sign == "" || sign == "+" || sign == "-"
    requires AllDigits(digits) && (rest == "" || !('0' <= rest[0] <= '9'))
    requires digits == "" && sign == "" && rest != "" ==>
               rest[0] != '+' && rest[0] != '-' && rest[0] != ' ' && !(9 <= rest[0] as int <= 13)
    ensures var n: int := Value(digits);
            var v := if sign == "-" then -n else n;
            Stoi(space + (sign + digits + rest)) ==
              if digits != "" && -0x8000_0000 <= v < 0x8000_0000 then Some(v as Tag) else None
  {
    var number := sign + digits + rest;
    NumberHead(sign, digits, rest);
    SkipSpaces(space, number);
    UnsignedIs(digits, rest);
    hide SkipSpace, Unsigned, Value, AllDigits, Stoi, IsSpace;
    if sign == "" {
      StoiPlain(space + number, number);
    } else {
      StoiSigned(space + number, number);
    }
  }

  /** `std::stoi` on any text that starts with a number: space, a sign, digits, anything else. */
  lemma StoiIs(space: string, sign: string, digits: string, rest: string)
    requires forall i :: 0 <= i < |space| ==> space[i] == ' ' || 9 <= space[i] as int <= 13
    requires sign == "" || sign == "+" || sign == "-"
    requires AllDigits(digits) && (rest == "" || !('0' <= rest[0] <= '9'))
    requires digits == "" && sign == "" && rest != "" ==>
               rest[0] != '+' && rest[0] != '-' && rest[0] != ' ' && !(9 <= rest[0] as int <= 13)
    ensures var n: int := Value(digits);
            var v := if sign == "-" then -n else n;
            Stoi(space + sign + digits + rest) ==
              if digits != "" && -0x8000_0000 <= v < 0x8000_0000 then Some(v as Tag) else None
  {
    assert space + sign + digits + rest == space + (sign + digits + rest);
    hide Stoi, Value, AllDigits;
    StoiBehindSpace(space, sign, digits, rest);
  }

  lemma NumberHead(sign: string, digits: string, rest: string)
    requires sign == "" || sign == "+" || sign == "-"
    requires AllDigits(digits)
    requires digits == "" && sign == "" && rest != "" ==>
               rest[0] != '+' && rest[0] != '-' && rest[0] != ' ' && !(9 <= rest[0] as int <= 13)
    ensures var number := sign + digits + rest;
            && (number == "" || !IsSpace(number[0]))
            && (if sign != "" then number[0] == sign[0] && number[1..] == digits + rest
                else number == digits + rest && (number == "" || (number[0] != '-' && number[0] != '+')))
  {
    var number := sign + digits + rest;
    if sign == "" {
      assert number == digits + rest;
      assert digits != "" ==> number[0] == digits[0];
      assert digits == "" && rest != "" ==> number[0] == rest[0];
    } else {
      assert number[0] == sign[0] && number[1..] == digits + rest;
    }
  }

  function InRange(v: int): Option<Tag> {
    if -0x8000_0000 <= v < 0x8000_0000 then Some(v as Tag) else None
  }

  lemma StoiSigned(s: string, number: string)
    requires SkipSpace(s) == number && number != "" && (number[0] == '-' || number[0] == '+')
    ensures Stoi(s) == match Unsigned(number[1..])
                       case None => None
                       case Some(n) => var m: int := n; InRange(if number[0] == '-' then -m else m)
  {
    hide SkipSpace, Unsigned;
  }

  lemma StoiPlain(s: string, number: string)
    requires SkipSpace(s) == number && (number == "" || (number[0] != '-' && number[0] != '+'))
    ensures Stoi(s) == match Unsigned(number) case None => None case Some(n) => InRange(n)
  {
    hide SkipSpace, Unsigned;
  }

  lemma UnsignedIs(digits: string, rest: string)
    requires AllDigits(digits) && (rest == "" || !('0' <= rest[0] <= '9'))
    ensures Unsigned(digits + rest) == if digits == "" then None else Some(Value(digits))
    ensures digits != "" ==> IsDigit(digits[0])
  {
    PrefixIs(digits, rest);
    assert (digits + rest)[..|digits|] == digits;
  }

  lemma {:induction false} SkipSpaces(space: string, number: string)
    requires forall i :: 0 <= i < |space| ==> space[i] == ' ' || 9 <= space[i] as int <= 13
    requires number == "" || !IsSpace(number[0])
    ensures SkipSpace(space + number) == number
  {
    if space == "" {
      assert space + number == number;
    } else {
      assert (space + number)[1..] == space[1..] + number;
      SkipSpaces(space[1..], number);
    }
  }

  lemma {:induction false} PrefixIs(digits: string, rest: string)
    requires AllDigits(digits) && (rest == "" || !('0' <= rest[0] <= '9'))
    ensures DigitPrefix(digits + rest) == |digits|
  {
    if digits == "" {
      assert digits + rest == rest;
    } else {
      assert (digits + rest)[1..] == digits[1..] + rest;
      PrefixIs(digits[1..], rest);
    }
  }

  /** Decimal value, digit by digit. */
  lemma ValueIs(s: string, c: char)
    requires AllDigits(s) && '0' <= c <= '9'
    ensures Value("") == 0 && AllDigits(s + [c]) && Value(s + [c]) == 10 * Value(s) + (c as int - 48)
  {
    assert (s + [c])[..|s|] == s;
  }

  /** Three digits with leading zeros. */
  function ThreeDigits(n: nat): (s: string)
    requires n < 1000
    ensures |s| == 3 && AllDigits(s)
  {
    [DigitOf(n / 100), DigitOf(n / 10 % 10), DigitOf(n % 10)]
  }

  lemma ValueOfThree(n: nat)
    requires n < 1000
    ensures var s := ThreeDigits(n); 100 * DigitValue(s[0]) + 10 * DigitValue(s[1]) + DigitValue(s[2]) == n
  {
    assert n / 10 / 10 == n / 100;
  }

  lemma ThreeDigitsValue(n: nat)
    requires n < 1000
    ensures Value(ThreeDigits(n)) == n
  {
    var s := ThreeDigits(n);
    ValueOfThree(n);
    ValueIs("", s[0]);
    ValueIs([s[0]], s[1]);
    ValueIs([s[0], s[1]], s[2]);
    assert [] + [s[0]] == [s[0]] && [s[0]] + [s[1]] == [s[0], s[1]] && [s[0], s[1]] + [s[2]] == s;
  }

  lemma ThreeDigitsInjective(a: nat, b: nat)
    requires a < 1000 && b < 1000
    ensures ThreeDigits(a) == ThreeDigits(b) <==> a == b
  {
    ValueOfThree(a);
    ValueOfThree(b);
  }

  /** `setw(width)` with `setfill('0')`. */
  function Padded(s: string, width: nat): string {
    if |s| >= width then s else seq(width - |s|, _ => '0') + s
  }

  lemma PaddedIsThreeDigits(n: nat)
    requires n < 1000
    ensures Padded(Digits(n), 3) == ThreeDigits(n)
  {
    if n >= 100 {
      assert n / 10 / 10 == n / 100;
      assert Digits(n / 10) == Digits(n / 100) + [DigitOf(n / 10 % 10)];
      assert Digits(n) == ThreeDigits(n);
    }
  }

  // ---- searching ------------------------------------------------------------

  /** The first `c` in `s`, or the length. */
  function Find(s: string, c: char): (n: nat)
    ensures n <= |s| && c !in s[..n] && (n < |s| ==> s[n] == c) && (n < |s| <==> c in s)
  {
    if s == "" || s[0] == c then 0 else 1 + Find(s[1..], c)
  }

  lemma FindBehind(a: string, c: char, b: string)
    requires c !in a
    ensures Find(a + [c] + b, c) == |a|
  {
    var s := a + [c] + b;
    var n := Find(s, c);
    assert s[|a|] == c;
    assert forall i :: 0 <= i < |a| ==> s[i] == a[i];
    assert n <= |a|;
  }

  /** `word` stands in `s` at `i`. */
  predicate At(s: string, i: nat, word: string) {
    i + |word| <= |s| && s[i..i + |word|] == word
  }

  ghost predicate Contains(s: string, word: string) {
    exists i: nat :: At(s, i, word)
  }

  /** The first `word` in `s`, or the length. */
  function FindWord(s: string, word: string): (n: nat)
    ensures n <= |s|
    decreases |s|
  {
    if At(s, 0, word) || s == "" then 0 else 1 + FindWord(s[1..], word)
  }

  lemma {:induction false} FindWordFirst(s: string, word: string)
    requires word != ""
    ensures var n := FindWord(s, word);
            (forall i: nat :: i < n ==> !At(s, i, word)) && (n < |s| ==> At(s, n, word))
    decreases |s|
  {
    var n := FindWord(s, word);
    if n > 0 {
      FindWordFirst(s[1..], word);
      forall i: nat | i < n ensures !At(s, i, word) {
        if i > 0 {
          assert !At(s[1..], i - 1, word);
          AtTail(s, i, word);
        }
      }
      if n < |s| {
        AtTail(s, n, word);
      }
    }
  }

  lemma AtTail(s: string, i: nat, word: string)
    requires i > 0 && s != ""
    ensures At(s, i, word) <==> At(s[1..], i - 1, word)
  {
    if i + |word| <= |s| {
      assert s[1..][i - 1..i - 1 + |word|] == s[i..i + |word|];
    }
  }

  /** The first occurrence is the only position with the word there and nowhere before. */
  lemma FindWordIs(s: string, word: string, k: nat)
    requires word != "" && At(s, k, word) && forall i: nat :: i < k ==> !At(s, i, word)
    ensures FindWord(s, word) == k
  {
    FindWordFirst(s, word);
    var n := FindWord(s, word);
  }

  // ---- byte sums ------------------------------------------------------------

  function ByteOf(c: char): (b: nat)
    ensures b < 256
  {
    c as int % 256
  }

  function ByteSum(s: string): nat {
    if s == "" then 0 else ByteSum(s[..|s| - 1]) + ByteOf(s[|s| - 1])
  }

  /** The byte sum, byte by byte. */
  lemma ByteSumIs(s: string, c: char)
    ensures ByteSum("") == 0 && ByteSum(s + [c]) == ByteSum(s) + c as int % 256
  {
    assert (s + [c])[..|s|] == s;
  }

  lemma {:induction false} ByteSumConcat(a: string, b: string)
    ensures ByteSum(a + b) == ByteSum(a) + ByteSum(b)
    decreases |b|
  {
    if b == "" {
      assert a + b == a;
    } else {
      var n := |b| - 1;
      assert (a + b)[..|a| + n] == a + b[..n];
      ByteSumConcat(a, b[..n]);
    }
  }
}
