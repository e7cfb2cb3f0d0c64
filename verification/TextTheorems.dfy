/** What the text primitives of the code compute, said without them: std::stoul and strtol on every text, isspace,
    decimal numerals, and C strings. */
module TextTheorems {
  import opened Sequences
  import opened Frames
  import opened HttpModel

  /** Space, tab, line feed, vertical tab, form feed, carriage return. */
  predicate Blank(c: char) {
    c as int == 32 || 9 <= c as int <= 13
  }

  predicate Blanks(s: string) {
    forall i :: 0 <= i < |s| ==> Blank(s[i])
  }

  /** '0' to '9'. */
  predicate Digit(c: char) {
    48 <= c as int <= 57
  }

  predicate Digits(s: string) {
    forall i :: 0 <= i < |s| ==> Digit(s[i])
  }

  // ---------------------------------------------------------------- white space, zeros

  /** Exactly the leading white space is dropped. */
  lemma {:induction false} LeftTrimmed(blanks: string, text: string)
    requires Blanks(blanks) && (text != "" ==> !Blank(text[0]))
    ensures SkipSpace(blanks + text) == text
    decreases |blanks|
  {
    if blanks == "" {
      assert blanks + text == text;
    } else {
      LeftTrimmed(blanks[1..], text);
      assert (blanks + text)[1..] == blanks[1..] + text;
    }
  }

  /** A C string ends at its first zero, or where its buffer does. */
  lemma {:induction false} CStringEnds(text: string, rest: string)
    requires '\0' !in text && (rest != "" ==> rest[0] == '\0')
    ensures CString(text + rest) == text
  {
    if text == "" {
      assert text + rest == rest;
    } else {
      assert text[0] in text;
      CStringEnds(text[1..], rest);
      assert (text + rest)[1..] == text[1..] + rest;
      assert text == [text[0]] + text[1..];
    }
  }

  // ---------------------------------------------------------------- case

  /** The same character, or the two cases of one letter of the alphabet. */
  predicate SameLetter(a: char, b: char) {
    || a == b
    || ('A' <= a <= 'Z' && b as int == a as int + 32)
    || ('A' <= b <= 'Z' && a as int == b as int + 32)
  }

  /** Prefixes are compared letter by letter without regard to case. */
  lemma PrefixIgnoresCase(haystack: string, needle: string)
    ensures HasPrefix(haystack, needle) <==>
            |haystack| >= |needle| && forall i :: 0 <= i < |needle| ==> SameLetter(haystack[i], needle[i])
  {
    if |haystack| >= |needle| {
      forall i | 0 <= i < |needle|
        ensures ToLower(haystack[..|needle|][i]) == ToLower(needle[i]) <==> SameLetter(haystack[i], needle[i])
      {
      }
    }
  }

  /** Which lines name a field: those that begin with its name and a colon, any letter small or capital. */
  lemma NamesField(line: string, h: Header)
    ensures var name := Search(h);
            HasPrefix(line, name) <==>
            |line| >= |name| && forall i :: 0 <= i < |name| ==>
              line[i] == name[i] || ('a' <= name[i] <= 'z' && line[i] as int == name[i] as int - 32)
  {
    var name := Search(h);
    PrefixIgnoresCase(line, name);
    forall i | 0 <= i < |name| && i < |line|
      ensures SameLetter(line[i], name[i]) <==>
              line[i] == name[i] || ('a' <= name[i] <= 'z' && line[i] as int == name[i] as int - 32)
    {
      SmallLetters(h, i);
    }
  }

  lemma SmallLetters(h: Header, i: nat)
    requires i < |Search(h)|
    ensures !('A' <= Search(h)[i] <= 'Z')
  {
  }

  // ---------------------------------------------------------------- numerals

  function Power10(n: nat): nat {
    if n == 0 then 1 else 10 * Power10(n - 1)
  }

  lemma DigitsAreDigits(s: string)
    requires Digits(s)
    ensures forall c :: c in s ==> IsDigit(c)
  {
  }

  lemma Distribute(d: nat, p: nat, v: nat, e: nat)
    ensures (d * p + v) * 10 + e == d * (10 * p) + (v * 10 + e)
  {
  }

  /** Numerals are positional: the first of n + 1 digits counts 10^n. */
  lemma {:induction false} FirstDigitCounts(d: char, s: string)
    requires Digits([d] + s)
    ensures (forall c :: c in s ==> IsDigit(c)) && (forall c :: c in [d] + s ==> IsDigit(c))
    ensures Value("") == 0 && Value([d] + s) == (d as int - 48) * Power10(|s|) + Value(s)
    decreases |s|
  {
    var t := [d] + s;
    assert t[0] == d && forall i :: 0 <= i < |s| ==> s[i] == t[i + 1];
    DigitsAreDigits(s);
    DigitsAreDigits(t);
    if s == "" {
      assert t[..0] == "" && t == [d];
    } else {
      var init, last := s[..|s| - 1], s[|s| - 1];
      assert t[..|t| - 1] == [d] + init;
      FirstDigitCounts(d, init);
      Distribute(d as int - 48, Power10(|init|), Value(init), last as int - 48);
    }
  }

  /** The other round trip: a numeral without a leading zero is the decimal text of its value. */
  lemma {:induction false} DecimalOfValue(s: string)
    requires Digits(s) && s != "" && (|s| > 1 ==> s[0] != '0')
    ensures (forall c :: c in s ==> IsDigit(c)) && Decimal(Value(s)) == s
    ensures s == "0" || Value(s) > 0
    decreases |s|
  {
    DigitsAreDigits(s);
    var init, last := s[..|s| - 1], s[|s| - 1];
    assert s == init + [last];
    if init == "" {
      assert Value(init) == 0 && s == [last];
    } else {
      DecimalOfValue(init);
      assert Value(s) / 10 == Value(init) && Value(s) % 10 == last as int - 48;
    }
  }

  // ---------------------------------------------------------------- std::stoul and strtol

  /** A text as the number readers see it. */
  datatype Numeral = Numeral(blanks: string, sign: string, digits: string, rest: string) {
    function Text(): string {
      blanks + (sign + (digits + rest))
    }

    /** Each part is as long as it can be. */
    predicate Valid() {
      && Blanks(blanks) && sign in ["", "+", "-"] && Digits(digits)
      && (rest != "" ==> !Digit(rest[0]))
      && (sign == "" && digits == "" && rest != "" ==> !Blank(rest[0]) && rest[0] != '+' && rest[0] != '-')
    }
  }

  lemma {:induction false} DigitsRead(digits: string, rest: string)
    requires Digits(digits) && (rest != "" ==> !Digit(rest[0]))
    ensures DigitPrefix(digits + rest) == digits
    decreases |digits|
  {
    if digits == "" {
      assert digits + rest == rest;
    } else {
      assert forall i :: 0 <= i < |digits[1..]| ==> digits[1..][i] == digits[i + 1];
      DigitsRead(digits[1..], rest);
      assert (digits + rest)[1..] == digits[1..] + rest;
      assert digits == [digits[0]] + digits[1..];
    }
  }

  /** What both readers do before they read digits. */
  lemma SignRead(n: Numeral)
    requires n.Valid()
    ensures var t := SkipSpace(n.Text());
            && (n.sign == "-" <==> t != "" && t[0] == '-')
            && (if t != "" && (t[0] == '-' || t[0] == '+') then t[1..] else t) == n.digits + n.rest
  {
    var t := n.sign + (n.digits + n.rest);
    if n.sign == "" {
      assert t == n.digits + n.rest;
      assert n.digits != "" ==> t[0] == n.digits[0];
      assert n.digits == "" ==> t == n.rest;
    } else {
      assert t[0] == n.sign[0] && t[1..] == n.digits + n.rest;
    }
    LeftTrimmed(n.blanks, t);
  }

  /** std::stoul on every text: it reads white space, a sign and digits and ignores the rest; it refuses exactly
      what has no digits or a value of 2^64 or more; a minus sign counts down from 2^64. */
  lemma StoulReads(n: Numeral)
    requires n.Valid()
    ensures (forall c :: c in n.digits ==> IsDigit(c))
    ensures var v := Value(n.digits);
            Stoul(n.Text()) == if n.digits == "" || v >= 0x1_0000_0000_0000_0000 then None
                               else if n.sign == "-" && v > 0 then Some(0x1_0000_0000_0000_0000 - v) else Some(v)
  {
    DigitsAreDigits(n.digits);
    SignRead(n);
    DigitsRead(n.digits, n.rest);
  }

  /** A length text announces the number that std::stoul reads, unless that is within 8192 of 2^64. */
  lemma LengthReads(n: Numeral)
    requires n.Valid()
    ensures (forall c :: c in n.digits ==> IsDigit(c))
    ensures var v := Value(n.digits);
            ContentLength(n.Text()) ==
            if n.digits == "" || v >= SIZE then None
            else if n.sign == "-" && v > 0 then (if v > 8192 then Some(SIZE - v) else None)
            else if v + 8192 < SIZE then Some(v) else None
  {
    StoulReads(n);
  }

  function Clamped(v: int): int {
    if v > 0x7FFF_FFFF_FFFF_FFFF then 0x7FFF_FFFF_FFFF_FFFF
    else if v < -0x8000_0000_0000_0000 then -0x8000_0000_0000_0000 else v
  }

  function Signed(negative: bool, v: int): int {
    if negative then -v else v
  }

  /** The low 32 bits of a long as an int. */
  function LowBits(long: int): int {
    var low := long % 0x1_0000_0000;
    if low < 0x8000_0000 then low else low - 0x1_0000_0000
  }

  lemma LowBitsAreCongruent(long: int)
    ensures -0x8000_0000 <= LowBits(long) < 0x8000_0000 && (LowBits(long) - long) % 0x1_0000_0000 == 0
    ensures -0x8000_0000 <= long < 0x8000_0000 ==> LowBits(long) == long
  {
    var q := long / 0x1_0000_0000;
    assert long == q * 0x1_0000_0000 + long % 0x1_0000_0000;
    assert LowBits(long) - long == -q * 0x1_0000_0000 || LowBits(long) - long == (-q - 1) * 0x1_0000_0000;
  }

  lemma StrtolIsLowBits(n: Numeral)
    requires n.Valid()
    ensures (forall c :: c in n.digits ==> IsDigit(c))
    ensures Strtol(n.Text()) == LowBits(Clamped(Signed(n.sign == "-", Value(n.digits))))
  {
    DigitsAreDigits(n.digits);
    SignRead(n);
    DigitsRead(n.digits, n.rest);
  }

  /** strtol cast to int, on every text: the signed value, clamped to long, in the 32 bits of an int. */
  lemma StrtolReads(n: Numeral)
    requires n.Valid()
    ensures (forall c :: c in n.digits ==> IsDigit(c))
    ensures -0x8000_0000 <= Strtol(n.Text()) < 0x8000_0000
    ensures var v := Signed(n.sign == "-", Value(n.digits));
            && (Strtol(n.Text()) - Clamped(v)) % 0x1_0000_0000 == 0
            && (-0x8000_0000 <= v < 0x8000_0000 ==> Strtol(n.Text()) == v)
  {
    StrtolIsLowBits(n);
    LowBitsAreCongruent(Clamped(Signed(n.sign == "-", Value(n.digits))));
  }

  lemma {:induction false} BlanksOf(s: string) returns (blanks: string, text: string)
    ensures s == blanks + text && Blanks(blanks) && (text != "" ==> !Blank(text[0]))
  {
    if s == "" || !Blank(s[0]) {
      blanks, text := "", s;
    } else {
      blanks, text := BlanksOf(s[1..]);
      blanks := [s[0]] + blanks;
    }
  }

  lemma {:induction false} DigitsOf(s: string) returns (digits: string, rest: string)
    ensures s == digits + rest && Digits(digits) && (rest != "" ==> !Digit(rest[0]))
  {
    if s == "" || !Digit(s[0]) {
      digits, rest := "", s;
    } else {
      digits, rest := DigitsOf(s[1..]);
      digits := [s[0]] + digits;
    }
  }

  /** Every text is read in one of these ways. */
  lemma EveryTextIsANumeral(s: string) returns (n: Numeral)
    ensures n.Valid() && n.Text() == s
  {
    var blanks, text := BlanksOf(s);
    var sign := if text != "" && (text[0] == '+' || text[0] == '-') then [text[0]] else "";
    var digits, rest := DigitsOf(text[|sign|..]);
    assert text == sign + text[|sign|..];
    n := Numeral(blanks, sign, digits, rest);
  }

  lemma DecimalDigits(n: nat)
    ensures Digits(Decimal(n))
  {
    forall i | 0 <= i < |Decimal(n)| ensures Digit(Decimal(n)[i]) {
      assert Decimal(n)[i] in Decimal(n);
    }
  }

  /** std::stoul reads back the decimal text of every size_t. */
  lemma StoulOfDecimal(n: nat)
    requires n < SIZE
    ensures Stoul(Decimal(n)) == Some(n)
  {
    var s := Decimal(n);
    DecimalDigits(n);
    DecimalValue(n);
    StoulReads(Numeral("", "", s, ""));
    assert "" + ("" + (s + "")) == s;
  }

  /** The status code of a first line: the number that begins at column 9. */
  lemma StatusReads(start: string, n: nat, rest: string)
    requires |start| == 9 && n < 0x8000_0000 && (rest != "" ==> !Digit(rest[0]))
    ensures Status(start + Decimal(n) + rest) == n
  {
    var s := Decimal(n);
    var line := start + s + rest;
    DecimalDigits(n);
    DecimalValue(n);
    assert line[9..] == "" + ("" + (s + rest));
    StrtolReads(Numeral("", "", s, rest));
  }
}
