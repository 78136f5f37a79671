/** Decimal text: numbers printed and parsed as Rust's `u64` does it, and splitting and trimming. */
module Decimal {

  datatype Option<+T> = None | Some(value: T)

  const U64_MAX: nat := 0xFFFF_FFFF_FFFF_FFFF

  predicate IsDigit(c: char) {
    '0' <= c <= '9'
  }

  function DigitOf(c: char): nat
    requires IsDigit(c)
  {
    c as int - '0' as int
  }

  function Digit(d: nat): (c: char)
    requires d < 10
    ensures IsDigit(c) && DigitOf(c) == d
  {
    ('0' as int + d) as char
  }

  predicate AllDigits(s: string) {
    forall i :: 0 <= i < |s| ==> IsDigit(s[i])
  }

  /** Without leading zeros. */
  function Print(n: nat): (s: string)
    ensures s != "" && AllDigits(s)
    ensures |s| > 1 ==> s[0] != '0'
    decreases n
  {
    if n < 10 then [Digit(n)] else Print(n / 10) + [Digit(n % 10)]
  }

  function Value(s: string): nat
    requires AllDigits(s)
  {
    if s == "" then 0 else 10 * Value(s[..|s| - 1]) + DigitOf(s[|s| - 1])
  }

  lemma {:induction false} ValueOfPrint(n: nat)
    ensures Value(Print(n)) == n
    decreases n
  {
    if n >= 10 {
      ValueOfPrint(n / 10);
      assert Print(n)[..|Print(n)| - 1] == Print(n / 10);
    }
  }

  lemma PrintInjective(m: nat, n: nat)
    requires Print(m) == Print(n)
    ensures m == n
  {
    ValueOfPrint(m);
    ValueOfPrint(n);
  }

  /** Among the digit strings with a value, the printed one is the one without leading zeros. */
  lemma {:induction false} PrintOfValue(s: string)
    requires s != "" && AllDigits(s) && (|s| > 1 ==> s[0] != '0')
    ensures Print(Value(s)) == s
    decreases |s|
  {
    var front, last := s[..|s| - 1], s[|s| - 1];
    assert s == front + [last];
    assert Digit(DigitOf(last)) == last;
    if front == "" {
      assert Value(s) == DigitOf(last);
    } else {
      PrintOfValue(front);
      Positive(front);
      assert Value(s) / 10 == Value(front) && Value(s) % 10 == DigitOf(last);
    }
  }

  lemma {:induction false} Positive(s: string)
    requires s != "" && AllDigits(s) && s[0] != '0'
    ensures Value(s) > 0
    decreases |s|
  {
    if |s| > 1 {
      Positive(s[..|s| - 1]);
    }
  }

  /** `str::parse::<u64>`: one leading plus sign is allowed, leading zeros are too. */
  function ParseU64(s: string): Option<nat> {
    var digits := if s != "" && s[0] == '+' then s[1..] else s;
    if digits == "" || !AllDigits(digits) || Value(digits) > U64_MAX then None else Some(Value(digits))
  }

  lemma ParseOfPrint(n: nat)
    ensures ParseU64(Print(n)) == if n <= U64_MAX then Some(n) else None
  {
    ValueOfPrint(n);
  }

  function Zeros(n: nat): (s: string)
    ensures |s| == n && forall i :: 0 <= i < n ==> s[i] == '0'
  {
    if n == 0 then "" else ['0'] + Zeros(n - 1)
  }

  function Signed(plus: bool, digits: string): string {
    (if plus then "+" else "") + digits
  }

  /** An optional plus sign, any number of zeros, and the number as it is printed. */
  ghost predicate Writes(s: string, n: nat) {
    exists plus: bool, zeros: nat :: WritesWith(s, n, plus, zeros)
  }

  predicate WritesWith(s: string, n: nat, plus: bool, zeros: nat) {
    s == Signed(plus, Zeros(zeros) + Print(n))
  }

  lemma {:induction false} LeadingZeros(zeros: nat, s: string)
    requires AllDigits(s)
    ensures AllDigits(Zeros(zeros) + s) && Value(Zeros(zeros) + s) == Value(s)
    decreases |s|, zeros
  {
    var all := Zeros(zeros) + s;
    if s != "" {
      assert all[..|all| - 1] == Zeros(zeros) + s[..|s| - 1];
      LeadingZeros(zeros, s[..|s| - 1]);
    } else if zeros > 0 {
      assert all == Zeros(zeros);
      assert Zeros(zeros)[..zeros - 1] == Zeros(zeros - 1) + "";
      LeadingZeros(zeros - 1, "");
    }
  }

  /** Digits are zeros and a number as it is printed. */
  lemma {:induction false} DigitsWrite(s: string) returns (zeros: nat)
    requires s != "" && AllDigits(s)
    ensures s == Zeros(zeros) + Print(Value(s))
  {
    if |s| > 1 && s[0] == '0' {
      var rest := DigitsWrite(s[1..]);
      zeros := rest + 1;
      assert s == ['0'] + s[1..] == ['0'] + Zeros(rest) + Print(Value(s[1..]));
      LeadingZeros(1, s[1..]);
      assert Zeros(1) == "0";
    } else {
      zeros := 0;
      PrintOfValue(s);
    }
  }

  lemma ParseSigned(plus: bool, digits: string)
    requires digits != "" && AllDigits(digits)
    ensures ParseU64(Signed(plus, digits)) == if Value(digits) > U64_MAX then None else Some(Value(digits))
  {
    assert Signed(plus, digits)[if plus then 1 else 0..] == digits;
  }

  /** Exactly what `parse` reads: the numbers of 64 bits, with leading zeros and a plus sign or without. */
  lemma ParseU64Iff(s: string, n: nat)
    ensures ParseU64(s) == Some(n) <==> n <= U64_MAX && Writes(s, n)
  {
    if plus: bool, zeros: nat :| WritesWith(s, n, plus, zeros) {
      LeadingZeros(zeros, Print(n));
      ValueOfPrint(n);
      ParseSigned(plus, Zeros(zeros) + Print(n));
      assert s == Signed(plus, Zeros(zeros) + Print(n));
    }
    if ParseU64(s) == Some(n) {
      ParsedWrites(s);
    }
  }

  lemma ParsedWrites(s: string)
    requires ParseU64(s).Some?
    ensures Writes(s, ParseU64(s).value)
  {
    var plus := s[0] == '+';
    var digits := if plus then s[1..] else s;
    var zeros := DigitsWrite(digits);
    assert s == Signed(plus, digits);
    assert WritesWith(s, ParseU64(s).value, plus, zeros);
  }

  // ---------------------------------------------------------------- splitting

  /** `split` at a character: always at least one part. */
  function Split(s: string, at: char): (parts: seq<string>)
    ensures parts != []
  {
    if s == "" then [""]
    else
      var rest := Split(s[1..], at);
      if s[0] == at then [""] + rest else [[s[0]] + rest[0]] + rest[1..]
  }

  function Join(parts: seq<string>, at: char): string
    requires parts != []
  {
    if |parts| == 1 then parts[0] else parts[0] + [at] + Join(parts[1..], at)
  }

  lemma {:induction false} JoinOfSplit(s: string, at: char)
    ensures Join(Split(s, at), at) == s
  {
    if s != "" {
      JoinOfSplit(s[1..], at);
      var rest := Split(s[1..], at);
      assert s == [s[0]] + s[1..];
      if s[0] == at {
        assert Split(s, at)[1..] == rest;
      } else {
        assert Split(s, at)[1..] == rest[1..];
      }
    }
  }

  lemma {:induction false} SplitOne(s: string, at: char)
    requires at !in s
    ensures Split(s, at) == [s]
  {
    if s != "" {
      assert s[0] in s && s == [s[0]] + s[1..];
      SplitOne(s[1..], at);
    }
  }

  lemma {:induction false} SplitFirst(s: string, at: char, t: string)
    requires at !in s
    ensures Split(s + [at] + t, at) == [s] + Split(t, at)
    decreases |s|
  {
    var all := s + [at] + t;
    if s == "" {
      assert all[1..] == t;
    } else {
      assert all[1..] == s[1..] + [at] + t;
      SplitFirst(s[1..], at, t);
      assert s[0] in s && all[0] == s[0];
      assert s == [s[0]] + s[1..];
      assert ([s[1..]] + Split(t, at))[1..] == Split(t, at);
    }
  }

  // ---------------------------------------------------------------- trimming

  /** The White_Space property of Unicode. */
  predicate IsWhitespace(c: char) {
    var code := c as int;
    || 9 <= code <= 13 || code == 0x20 || code == 0x85 || code == 0xA0 || code == 0x1680
    || 0x2000 <= code <= 0x200A || code == 0x2028 || code == 0x2029 || code == 0x202F
    || code == 0x205F || code == 0x3000
  }

  /** One by one, the code points with that property. */
  lemma WhitespaceIs(c: char)
    ensures IsWhitespace(c) <==>
            c as int in {9, 10, 11, 12, 13, 0x20, 0x85, 0xA0, 0x1680, 0x2000, 0x2001, 0x2002, 0x2003, 0x2004, 0x2005,
                         0x2006, 0x2007, 0x2008, 0x2009, 0x200A, 0x2028, 0x2029, 0x202F, 0x205F, 0x3000}
  {
  }

  function TrimStart(s: string): string {
    if s != "" && IsWhitespace(s[0]) then TrimStart(s[1..]) else s
  }

  function TrimEnd(s: string): string {
    if s != "" && IsWhitespace(s[|s| - 1]) then TrimEnd(s[..|s| - 1]) else s
  }

  function Trim(s: string): string {
    TrimEnd(TrimStart(s))
  }

  predicate AllWhitespace(s: string) {
    forall i :: 0 <= i < |s| ==> IsWhitespace(s[i])
  }

  predicate NoneAround(s: string) {
    s != "" ==> !IsWhitespace(s[0]) && !IsWhitespace(s[|s| - 1])
  }

  lemma {:induction false} TrimStartIs(s: string) returns (before: string)
    ensures s == before + TrimStart(s) && AllWhitespace(before)
    ensures TrimStart(s) != "" ==> !IsWhitespace(TrimStart(s)[0])
  {
    if s != "" && IsWhitespace(s[0]) {
      var rest := TrimStartIs(s[1..]);
      before := [s[0]] + rest;
      assert s == [s[0]] + s[1..];
    } else {
      before := "";
    }
  }

  lemma {:induction false} TrimEndIs(s: string) returns (after: string)
    ensures s == TrimEnd(s) + after && AllWhitespace(after)
    ensures TrimEnd(s) != "" ==> !IsWhitespace(TrimEnd(s)[|TrimEnd(s)| - 1])
    decreases |s|
  {
    if s != "" && IsWhitespace(s[|s| - 1]) {
      var rest := TrimEndIs(s[..|s| - 1]);
      after := rest + [s[|s| - 1]];
      assert s == s[..|s| - 1] + [s[|s| - 1]];
    } else {
      after := "";
    }
  }

  /** Trimming takes all white space off both ends, and nothing else. */
  lemma TrimIs(s: string) returns (before: string, after: string)
    ensures s == before + Trim(s) + after && AllWhitespace(before) && AllWhitespace(after) && NoneAround(Trim(s))
  {
    before := TrimStartIs(s);
    after := TrimEndIs(TrimStart(s));
    var trimmed := Trim(s);
    assert trimmed != "" ==> trimmed[0] == TrimStart(s)[0];
  }

  lemma BlankIff(before: string, s: string, after: string)
    requires AllWhitespace(before) && AllWhitespace(after) && NoneAround(s)
    ensures AllWhitespace(before + s + after) <==> s == ""
  {
    if s != "" {
      assert (before + s + after)[|before|] == s[0];
    }
  }

  lemma Ends(before: string, s: string, after: string)
    requires AllWhitespace(before) && AllWhitespace(after) && NoneAround(s) && s != ""
    ensures var all, last := before + s + after, |before| + |s| - 1;
            && !IsWhitespace(all[|before|]) && !IsWhitespace(all[last])
            && (forall i :: 0 <= i < |before| || last < i < |all| ==> IsWhitespace(all[i]))
  {
  }

  /** There is one way to do that. */
  lemma TrimUnique(before: string, s: string, after: string)
    requires AllWhitespace(before) && AllWhitespace(after) && NoneAround(s)
    ensures Trim(before + s + after) == s
  {
    var all := before + s + after;
    var left, right := TrimIs(all);
    var trimmed := Trim(all);
    BlankIff(before, s, after);
    BlankIff(left, trimmed, right);
    if s != "" {
      Ends(before, s, after);
      Ends(left, trimmed, right);
      assert |left| == |before| && |trimmed| == |s|;
      assert all[|before|..|before| + |s|] == s;
      assert all[|left|..|left| + |trimmed|] == trimmed;
    }
  }

  /** The text before the first character of a kind, or all of it. */
  function Until(s: string, stop: char -> bool): (r: string)
    ensures |r| <= |s| && r == s[..|r|]
    ensures forall i :: 0 <= i < |r| ==> !stop(r[i])
    ensures |r| < |s| ==> stop(s[|r|])
  {
    if s == "" || stop(s[0]) then "" else [s[0]] + Until(s[1..], stop)
  }
}
