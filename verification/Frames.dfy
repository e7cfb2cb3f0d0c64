/** Message frames `type|length|content`, the text of the length, and std::stoul. */
module Frames {
  import opened Sequences

  /** The range of size_t. */
  const SIZE: nat := 0x1_0000_0000_0000_0000

  /** The most bytes one receive can deliver (server/Consts.hpp). */
  const MAX_READ_BUF: nat := 8192

  datatype Message = Message(msgType: string, lengthText: string, content: string) {
    function Bytes(): string {
      msgType + "|" + lengthText + "|" + content
    }
  }

  function AllBytes(ms: seq<Message>): string {
    if ms == [] then "" else AllBytes(ms[..|ms| - 1]) + ms[|ms| - 1].Bytes()
  }

  lemma AllBytesAppend(ms: seq<Message>, m: Message)
    ensures AllBytes(ms + [m]) == AllBytes(ms) + m.Bytes()
  {
    assert (ms + [m])[..|ms|] == ms;
  }

  lemma {:induction false} AllBytesConcat(a: seq<Message>, b: seq<Message>)
    ensures AllBytes(a + b) == AllBytes(a) + AllBytes(b)
    decreases |b|
  {
    if b == [] {
      assert a + b == a;
    } else {
      var b', m := b[..|b| - 1], b[|b| - 1];
      AllBytesConcat(a, b');
      assert (a + b)[..|a + b| - 1] == a + b';
      ConcatAssoc(AllBytes(a), AllBytes(b'), m.Bytes());
    }
  }

  // ---------------------------------------------------------------- std::stoul

  predicate IsSpace(c: char) {
    c == ' ' || '\t' <= c <= '\r'
  }

  predicate IsDigit(c: char) {
    '0' <= c <= '9'
  }

  function DigitValue(c: char): (d: nat)
    requires IsDigit(c)
    ensures d <= 9
  {
    c as nat - '0' as nat
  }

  function SkipSpace(s: string): string {
    if s != "" && IsSpace(s[0]) then SkipSpace(s[1..]) else s
  }

  /** The longest prefix of digits. */
  function DigitPrefix(s: string): (p: string)
    ensures forall c :: c in p ==> IsDigit(c)
  {
    if s != "" && IsDigit(s[0]) then [s[0]] + DigitPrefix(s[1..]) else ""
  }

  function Value(digits: string): nat
    requires forall c :: c in digits ==> IsDigit(c)
  {
    if digits == "" then 0 else Value(digits[..|digits| - 1]) * 10 + DigitValue(digits[|digits| - 1])
  }

  /** None stands for the exceptions std::invalid_argument and std::out_of_range. */
  function Stoul(s: string): Option<nat> {
    var t := SkipSpace(s);
    var negative := t != "" && t[0] == '-';
    var u := if t != "" && (t[0] == '-' || t[0] == '+') then t[1..] else t;
    var digits := DigitPrefix(u);
    if digits == "" then None
    else
      var v := Value(digits);
      if v >= SIZE then None
      else Some(if negative && v > 0 then SIZE - v else v)
  }

  /** The content length a length text announces. Lengths within one receive buffer of the top of
      size_t, where the index arithmetic of the parser would wrap, count as unusable too. */
  function ContentLength(lengthText: string): (n: Option<nat>)
    ensures n.Some? ==> n.value + MAX_READ_BUF < SIZE
  {
    match Stoul(lengthText)
    case None => None
    case Some(n) => if n + MAX_READ_BUF < SIZE then Some(n) else None
  }

  /** The decimal text of n. */
  function Decimal(n: nat): (s: string)
    ensures s != "" && forall c :: c in s ==> IsDigit(c)
  {
    var last := [('0' as nat + n % 10) as char];
    if n < 10 then last else Decimal(n / 10) + last
  }

  lemma {:induction false} DecimalValue(n: nat)
    ensures Value(Decimal(n)) == n
  {
    var s := Decimal(n);
    if n < 10 {
      assert s[..|s| - 1] == "";
    } else {
      DecimalValue(n / 10);
      assert s[..|s| - 1] == Decimal(n / 10);
    }
  }

  lemma {:induction false} DigitsAreTheirPrefix(s: string)
    requires forall c :: c in s ==> IsDigit(c)
    ensures DigitPrefix(s) == s
  {
    if s != "" {
      DigitsAreTheirPrefix(s[1..]);
      assert s == [s[0]] + s[1..];
    }
  }

  /** Reading back the decimal text of a length gives the length. */
  lemma DecimalRoundTrip(n: nat)
    requires n + MAX_READ_BUF < SIZE
    ensures Stoul(Decimal(n)) == Some(n) && ContentLength(Decimal(n)) == Some(n)
    ensures '|' !in Decimal(n)
  {
    var s := Decimal(n);
    assert s[0] in s;
    DecimalValue(n);
    DigitsAreTheirPrefix(s);
  }
}
