/** The Go string routines the components use: strings.Join, strings.Split, strconv.Itoa and strconv.Atoi. */
module Text {

  datatype Option<T> = None | Some(value: T)

  // ---- Join and Split ----

  function Join(parts: seq<string>, sep: char): string {
    if |parts| == 0 then ""
    else if |parts| == 1 then parts[0]
    else parts[0] + [sep] + Join(parts[1..], sep)
  }

  /** strings.Split for a one-character separator; the empty string gives one empty piece. */
  function Split(s: string, sep: char): (parts: seq<string>)
    ensures |parts| >= 1
  {
    if s == "" then [""]
    else if s[0] == sep then [""] + Split(s[1..], sep)
    else
      var rest := Split(s[1..], sep);
      [[s[0]] + rest[0]] + rest[1..]
  }

  /** Splitting is undone by joining. */
  lemma {:induction false} JoinSplit(s: string, sep: char)
    ensures Join(Split(s, sep), sep) == s
  {
    if s != "" {
      JoinSplit(s[1..], sep);
      var rest := Split(s[1..], sep);
      assert s == [s[0]] + s[1..];
      if s[0] == sep {
        assert Split(s, sep)[1..] == rest;
      } else if |rest| > 1 {
        assert Split(s, sep)[1..] == rest[1..];
      }
    }
  }

  lemma {:induction false} SplitPrefix(piece: string, s: string, sep: char)
    requires sep !in piece
    ensures Split(piece + [sep] + s, sep) == [piece] + Split(s, sep)
    ensures Split(piece, sep) == [piece]
    decreases |piece|
  {
    if piece == "" {
      assert piece + [sep] + s == [sep] + s;
    } else {
      SplitPrefix(piece[1..], s, sep);
      assert piece == [piece[0]] + piece[1..];
      assert (piece + [sep] + s)[1..] == piece[1..] + [sep] + s;
    }
  }

  ghost predicate AllAvoid(parts: seq<string>, sep: char) {
    forall p :: p in parts ==> sep !in p
  }

  /** No piece contains the separator. */
  lemma {:induction false} SplitAvoids(s: string, sep: char)
    ensures AllAvoid(Split(s, sep), sep)
  {
    if s != "" {
      SplitAvoids(s[1..], sep);
      var rest := Split(s[1..], sep);
      assert rest[0] in rest;
    }
  }

  /** Joining separator-free pieces is undone by splitting, except that no piece at all comes back as one. */
  lemma {:induction false} SplitJoin(parts: seq<string>, sep: char)
    requires AllAvoid(parts, sep)
    ensures Split(Join(parts, sep), sep) == if parts == [] then [""] else parts
    decreases |parts|
  {
    if |parts| == 1 {
      SplitPrefix(parts[0], "", sep);
      assert parts == [parts[0]];
    } else if |parts| > 1 {
      var rest := parts[1..];
      SplitJoin(rest, sep);
      SplitPrefix(parts[0], Join(rest, sep), sep);
      assert Join(parts, sep) == parts[0] + [sep] + Join(rest, sep);
      assert parts == [parts[0]] + rest;
    }
  }

  // ---- Itoa and Atoi ----

  predicate IsDigit(c: char) { '0' <= c <= '9' }

  function Digits(n: nat): (s: string)
    ensures |s| >= 1 && forall c :: c in s ==> IsDigit(c)
  {
    var d := [('0' as int + n % 10) as char];
    if n < 10 then d else Digits(n / 10) + d
  }

  function Itoa(n: int): string {
    if n < 0 then "-" + Digits(-n) else Digits(n)
  }

  function DigitsValue(s: string): nat
    requires forall c :: c in s ==> IsDigit(c)
  {
    if s == "" then 0
    else
      assert IsDigit(s[|s| - 1]);
      DigitsValue(s[..|s| - 1]) * 10 + (s[|s| - 1] as int - '0' as int)
  }

  const MIN_INT: int := -0x8000_0000_0000_0000
  const MAX_INT: int := 0x7fff_ffff_ffff_ffff

  /** Go's 64-bit int. */
  predicate IsInt(n: int) { MIN_INT <= n <= MAX_INT }

  /** The integer a text denotes: an optional sign, at least one digit, nothing else. */
  function IntegerOf(s: string): Option<int> {
    var signed := s != "" && (s[0] == '-' || s[0] == '+');
    var digits := if signed then s[1..] else s;
    if digits == "" || exists c :: c in digits && !IsDigit(c) then None
    else
      var v: int := DigitsValue(digits);
      Some(if signed && s[0] == '-' then -v else v)
  }

  ghost predicate AllDigits(s: string) {
    s != "" && forall c :: c in s ==> IsDigit(c)
  }

  /** Exactly the texts of digits with at most one sign denote integers, and a minus sign negates. */
  lemma {:induction false} IntegerReads(s: string)
    ensures IntegerOf(s).Some? <==> AllDigits(s) || (s != "" && (s[0] == '-' || s[0] == '+') && AllDigits(s[1..]))
    ensures AllDigits(s) ==>
              var v: int := DigitsValue(s);
              IntegerOf(s) == IntegerOf("+" + s) == Some(v) && IntegerOf("-" + s) == Some(-v)
  {
    assert s != "" ==> s[0] in s;
    assert ("+" + s)[1..] == s && ("-" + s)[1..] == s;
  }

  /** strconv.Atoi: the integer denoted, if it fits int. */
  function Atoi(s: string): Option<int> {
    var r := IntegerOf(s);
    if r.Some? && IsInt(r.value) then r else None
  }

  lemma {:induction false} DigitsRoundTrip(n: nat)
    ensures DigitsValue(Digits(n)) == n
  {
    if n >= 10 {
      DigitsRoundTrip(n / 10);
      assert Digits(n)[..|Digits(n)| - 1] == Digits(n / 10);
    }
  }

  lemma {:induction false} IntegerOfItoa(n: int)
    ensures IntegerOf(Itoa(n)) == Some(n)
  {
    if n < 0 {
      DigitsRoundTrip(-n);
      assert Itoa(n)[1..] == Digits(-n);
    } else {
      DigitsRoundTrip(n);
      assert Digits(n)[0] in Digits(n);
    }
  }

  /** Atoi reads back what Itoa wrote exactly when the number fits 64 bits. */
  lemma {:induction false} AtoiItoa(n: int)
    ensures Atoi(Itoa(n))
            == if -9223372036854775808 <= n <= 9223372036854775807 then Some(n) else None
  {
    IntegerOfItoa(n);
  }

  // ---- Itoa writes the one text without superfluous characters ----

  /** Digits in base ten, the last one least significant. */
  lemma {:induction false} DigitsValueAppend(s: string, c: char)
    requires (forall d :: d in s ==> IsDigit(d)) && '0' <= c <= '9'
    ensures (forall d :: d in s + [c] ==> IsDigit(d)) && DigitsValue(s + [c]) == 10 * DigitsValue(s) + (c as int - 48)
    ensures DigitsValue("") == 0
  {
    assert (s + [c])[..|s|] == s;
  }

  /** At least one digit, and no leading zero before another digit. */
  ghost predicate CanonicalDigits(s: string) {
    s != "" && (forall c :: c in s ==> IsDigit(c)) && (s[0] == '0' ==> |s| == 1)
  }

  /** Canonical digits, or a minus sign before some that do not start with a zero. */
  ghost predicate Canonical(s: string) {
    CanonicalDigits(s) || (|s| > 1 && s[0] == '-' && s[1] != '0' && CanonicalDigits(s[1..]))
  }

  /** Without its last digit such a text stays so, and does not become zero. */
  lemma {:induction false} InitIsCanonical(s: string)
    requires CanonicalDigits(s) && |s| > 1
    ensures CanonicalDigits(s[..|s| - 1]) && s[..|s| - 1][0] != '0' && '0' <= s[|s| - 1] <= '9'
    ensures s == s[..|s| - 1] + [s[|s| - 1]]
  {
    forall c | c in s[..|s| - 1]
      ensures IsDigit(c)
    {
      assert c in s;
    }
    assert s[..|s| - 1][0] == s[0];
    assert s[0] in s && s[|s| - 1] in s;
  }

  lemma {:induction false} LeadingDigitCounts(s: string)
    requires CanonicalDigits(s) && s[0] != '0'
    ensures DigitsValue(s) > 0
  {
    if |s| > 1 {
      InitIsCanonical(s);
      LeadingDigitCounts(s[..|s| - 1]);
    } else {
      assert s[0] in s;
    }
  }

  lemma {:induction false} DigitsAreCanonical(n: nat)
    ensures CanonicalDigits(Digits(n)) && (Digits(n)[0] == '0' <==> n == 0)
  {
    if n >= 10 {
      DigitsAreCanonical(n / 10);
      assert Digits(n)[0] == Digits(n / 10)[0];
    }
  }

  lemma {:induction false} CanonicalDigitsAreDigits(s: string)
    requires CanonicalDigits(s)
    ensures s == Digits(DigitsValue(s))
  {
    var d := s[|s| - 1] as int - '0' as int;
    if |s| == 1 {
      assert s[0] in s && s[..0] == "";
      assert DigitsValue(s) == d;
      assert ('0' as int + d) as char == s[0];
    } else {
      InitIsCanonical(s);
      LeadingDigitCounts(s[..|s| - 1]);
      CanonicalDigitsAreDigits(s[..|s| - 1]);
      LastDigit(DigitsValue(s[..|s| - 1]), d, DigitsValue(s));
    }
  }

  lemma {:induction false} LastDigit(v: nat, d: nat, n: nat)
    requires d < 10 && n == v * 10 + d
    ensures n / 10 == v && n % 10 == d
  {
  }

  /** Itoa writes a canonical text, and it is the only canonical text that denotes the number. */
  lemma {:induction false} ItoaIsCanonical(n: int)
    ensures Canonical(Itoa(n)) && IntegerOf(Itoa(n)) == Some(n)
    ensures forall s :: Canonical(s) && IntegerOf(s) == Some(n) ==> s == Itoa(n)
  {
    IntegerOfItoa(n);
    DigitsAreCanonical(if n < 0 then -n else n);
    if n < 0 {
      assert Itoa(n)[1..] == Digits(-n);
    }
    forall s | Canonical(s) && IntegerOf(s) == Some(n)
      ensures s == Itoa(n)
    {
      CanonicalIsItoa(s, n);
    }
  }

  lemma {:induction false} CanonicalIsItoa(s: string, n: int)
    requires Canonical(s) && IntegerOf(s) == Some(n)
    ensures s == Itoa(n)
  {
    if s[0] == '-' {
      assert s[0] in s;
      LeadingDigitCounts(s[1..]);
      CanonicalDigitsAreDigits(s[1..]);
      assert s == "-" + s[1..];
    } else {
      assert s[0] in s;
      CanonicalDigitsAreDigits(s);
    }
  }

  lemma {:induction false} ItoaInjective(m: int, n: int)
    requires Itoa(m) == Itoa(n)
    ensures m == n
  {
    IntegerOfItoa(m);
    IntegerOfItoa(n);
  }

  lemma {:induction false} ItoaCharacters(n: int)
    ensures Itoa(n) != "" && forall c :: c in Itoa(n) ==> c == '-' || IsDigit(c)
  {
  }
}
