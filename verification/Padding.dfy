// Trimmed texts and padded ones, substrings, and decimal numerals: what the string operations
// of Text give, in terms of how a text is put together.
module Padding {
  import opened Text

  ghost predicate Blanks<T(!new)>(s: seq<T>, blank: T -> bool) { forall c :: c in s ==> blank(c) }

  lemma {:induction false} LStripPadded<T(!new)>(a: seq<T>, core: seq<T>, blank: T -> bool)
    requires Blanks(a, blank) && (core == [] || !blank(core[0]))
    ensures LStripBy(a + core, blank) == core
  {
    if a == [] {
      assert a + core == core;
    } else {
      assert a[0] in a && (a + core)[1..] == a[1..] + core;
      LStripPadded(a[1..], core, blank);
    }
  }

  lemma {:induction false} RStripPadded<T(!new)>(core: seq<T>, b: seq<T>, blank: T -> bool)
    requires Blanks(b, blank) && (core == [] || !blank(core[|core| - 1]))
    ensures RStripBy(core + b, blank) == core
  {
    if b == [] {
      assert core + b == core;
    } else {
      var front := b[..|b| - 1];
      assert b[|b| - 1] in b && (core + b)[..|core + b| - 1] == core + front;
      RStripPadded(core, front, blank);
    }
  }

  // Blanks around a trimmed text are what is taken off it.
  lemma StripPadded<T(!new)>(a: seq<T>, core: seq<T>, b: seq<T>, blank: T -> bool)
    requires Blanks(a, blank) && Blanks(b, blank) && core != [] && TrimmedBy(core, blank)
    ensures StripBy(a + core + b, blank) == core
  {
    RStripPadded(a + core, b, blank);
    LStripPadded(a, core, blank);
  }

  lemma {:induction false} LStripTakesBlanks<T(!new)>(s: seq<T>, blank: T -> bool)
    ensures forall i :: 0 <= i < |s| - |LStripBy(s, blank)| ==> blank(s[i])
  {
    if s != [] && blank(s[0]) {
      LStripTakesBlanks(s[1..], blank);
      assert forall i :: 1 <= i < |s| - |LStripBy(s, blank)| ==> s[i] == s[1..][i - 1];
    }
  }

  lemma LStripSplits<T(!new)>(s: seq<T>, blank: T -> bool) returns (a: seq<T>)
    ensures s == a + LStripBy(s, blank) && Blanks(a, blank)
  {
    LStripTakesBlanks(s, blank);
    a := s[..|s| - |LStripBy(s, blank)|];
  }

  lemma RStripSplits<T(!new)>(s: seq<T>, blank: T -> bool) returns (b: seq<T>)
    ensures s == RStripBy(s, blank) + b && Blanks(b, blank)
  {
    b := s[|RStripBy(s, blank)|..];
  }

  // Every text is its trimmed form with blanks around it.
  lemma StripSplits<T(!new)>(s: seq<T>, blank: T -> bool) returns (a: seq<T>, b: seq<T>)
    ensures s == a + StripBy(s, blank) + b && Blanks(a, blank) && Blanks(b, blank)
  {
    b := RStripSplits(s, blank);
    a := LStripSplits(RStripBy(s, blank), blank);
  }

  lemma Regroup<T>(a: seq<T>, b: seq<T>, c: seq<T>, d: seq<T>)
    ensures a + (b + c + d) == (a + b) + c + d
  {
  }

  // Blanks in front make no difference.
  lemma StripLead<T(!new)>(lead: seq<T>, s: seq<T>, blank: T -> bool)
    requires Blanks(lead, blank) && StripBy(s, blank) != []
    ensures StripBy(lead + s, blank) == StripBy(s, blank)
  {
    var a, b := StripSplits(s, blank);
    Regroup(lead, a, StripBy(s, blank), b);
    StripPadded(lead + a, StripBy(s, blank), b, blank);
  }

  // ----- substrings -----

  ghost predicate HasPart(s: string, a: string, sub: string, b: string) { s == a + sub + b }

  lemma ContainsIff(s: string, sub: string)
    ensures Contains(s, sub) <==> exists a, b :: HasPart(s, a, sub, b)
  {
    if i :| 0 <= i <= |s| && OccursAt(s, sub, i) {
      assert HasPart(s, s[..i], sub, s[i + |sub|..]);
    }
    if a, b :| HasPart(s, a, sub, b) {
      assert OccursAt(s, sub, |a|);
    }
  }

  // ----- numerals -----

  ghost predicate Zeros(z: string) { forall i :: 0 <= i < |z| ==> z[i] == '0' }

  function Digit(c: char): int { c as int - '0' as int }

  lemma PushDigit(s: string, c: char)
    requires AllDigits(s) && '0' <= c <= '9'
    ensures AllDigits(s + [c]) && DecimalValue(s + [c]) == 10 * DecimalValue(s) + Digit(c)
  {
    assert (s + [c])[..|s|] == s;
  }

  lemma {:induction false} ZerosAreNothing(z: string)
    requires Zeros(z)
    ensures AllDigits(z) && DecimalValue(z) == 0
  {
    if z != "" {
      ZerosAreNothing(z[..|z| - 1]);
    }
  }

  // A numeral behind any number of zeros has its number as value...
  lemma {:induction false} NumeralValue(z: string, n: nat)
    requires Zeros(z)
    ensures AllDigits(z + Decimal(n)) && DecimalValue(z + Decimal(n)) == n
    decreases n
  {
    var c := ('0' as int + n % 10) as char;
    if n < 10 {
      ZerosAreNothing(z);
      assert Decimal(n) == [c];
      PushDigit(z, c);
    } else {
      NumeralValue(z, n / 10);
      PushDigit(z + Decimal(n / 10), c);
      assert z + Decimal(n) == z + Decimal(n / 10) + [c];
    }
  }

  ghost predicate NumeralOf(s: string, n: nat, z: string) { Zeros(z) && s == z + Decimal(n) }

  lemma DecimalPush(n: nat, d: nat)
    requires n > 0 && d < 10
    ensures Decimal(10 * n + d) == Decimal(n) + [('0' as int + d) as char]
  {
    var m := 10 * n + d;
    assert m >= 10 && m / 10 == n && m % 10 == d;
  }

  // The numeral of n with zeros in front.
  ghost predicate IsNumeral(s: string, n: nat) { exists z :: NumeralOf(s, n, z) }

  lemma OneDigit(c: char)
    requires '0' <= c <= '9'
    ensures IsNumeral([c], Digit(c))
  {
    assert Decimal(Digit(c)) == [c];
    assert NumeralOf([c], Digit(c), "");
  }

  lemma ZeroIsOneDigit(c: char)
    requires '0' <= c <= '9'
    ensures Decimal(0) == "0" && Decimal(Digit(c)) == [c]
  {
  }

  lemma NumeralPush(s: string, n: nat, c: char)
    requires IsNumeral(s, n) && '0' <= c <= '9'
    ensures IsNumeral(s + [c], 10 * n + Digit(c))
  {
    var z :| NumeralOf(s, n, z);
    if n == 0 {
      ZeroIsOneDigit(c);
      assert NumeralOf(s + [c], Digit(c), z + "0");
    } else {
      DecimalPush(n, Digit(c));
      assert NumeralOf(s + [c], 10 * n + Digit(c), z);
    }
  }

  // Induction over the last element.
  lemma {:induction false} BySnoc<T(!new)>(s: seq<T>, ok: seq<T> -> bool)
    requires ok([]) && forall front, c :: ok(front) ==> ok(front + [c])
    ensures ok(s)
  {
    if s != [] {
      BySnoc(s[..|s| - 1], ok);
      assert s[..|s| - 1] + [s[|s| - 1]] == s;
    }
  }

  ghost function ReadsAsNumeral(): string -> bool {
    (s: string) => s != "" && AllDigits(s) ==> IsNumeral(s, DecimalValue(s))
  }

  lemma FrontDigits(front: string, c: char)
    requires AllDigits(front + [c])
    ensures AllDigits(front) && '0' <= c <= '9'
  {
    assert forall i :: 0 <= i < |front| ==> (front + [c])[i] == front[i];
    assert (front + [c])[|front|] == c;
  }

  lemma OneDigitValue(c: char)
    requires '0' <= c <= '9'
    ensures AllDigits([c]) && DecimalValue([c]) == Digit(c)
  {
    assert [c][..0] == [];
  }

  lemma FirstDigit(s: string, c: char)
    requires s == [c] && '0' <= c <= '9'
    ensures IsNumeral(s, DecimalValue(s))
  {
    OneDigitValue(c);
    OneDigit(c);
  }

  lemma NumeralStep(front: string, c: char)
    requires ReadsAsNumeral()(front)
    ensures ReadsAsNumeral()(front + [c])
  {
    if AllDigits(front + [c]) {
      FrontDigits(front, c);
      if front == "" {
        FirstDigit(front + [c], c);
      } else {
        PushDigit(front, c);
        NumeralPush(front, DecimalValue(front), c);
      }
    }
  }

  // ...and all digits with that value look so.
  lemma DigitsAreNumeral(s: string)
    requires s != "" && AllDigits(s)
    ensures IsNumeral(s, DecimalValue(s))
  {
    forall front, c | ReadsAsNumeral()(front) ensures ReadsAsNumeral()(front + [c]) {
      NumeralStep(front, c);
    }
    BySnoc(s, ReadsAsNumeral());
  }

  lemma NumeralIff(s: string, n: nat)
    ensures (s != "" && AllDigits(s) && DecimalValue(s) == n) <==> IsNumeral(s, n)
  {
    if s != "" && AllDigits(s) {
      DigitsAreNumeral(s);
    }
    if z :| NumeralOf(s, n, z) {
      NumeralValue(z, n);
    }
  }

  // No leading zero.
  lemma {:induction false} NumeralHead(n: nat)
    ensures AllDigits(Decimal(n)) && Decimal(n) != "" && (n > 0 ==> Decimal(n)[0] != '0')
  {
    if n >= 10 {
      NumeralHead(n / 10);
    }
  }
}
