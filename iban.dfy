/**
 * The IBAN validator of
 * presidio-analyzer/analyzer/predefined_recognizers/iban_recognizer.py:
 * the ISO 13616 check digits, computed with ISO/IEC 7064 MOD 97-10. The
 * first four characters are moved to the end, letters become two-digit
 * numbers (A = 10 ... Z = 35), and the numeral must be 1 modulo 97; the
 * declared check digits must also equal the ones generated from the code.
 */
module Iban {
  import opened Wrappers
  import opened Analyzer

  // ---------------------------------------------------------------------
  // Python string slicing and integer conversion

  /** `s[:k]` */
  function Take(s: string, k: nat): (r: string)
    ensures |r| == if k <= |s| then k else |s|
  {
    if k <= |s| then s[..k] else s
  }

  /** `s[k:]` */
  function Drop(s: string, k: nat): (r: string)
    ensures |r| == if k <= |s| then |s| - k else 0
  {
    if k <= |s| then s[k..] else []
  }

  /** `s[i:j]` */
  function Slice(s: string, i: nat, j: nat): string
  {
    Drop(Take(s, j), i)
  }

  predicate IsDigit(c: char) {
    '0' <= c <= '9'
  }

  predicate IsUpper(c: char) {
    'A' <= c <= 'Z'
  }

  predicate AllDigits(s: string) {
    forall i :: 0 <= i < |s| ==> IsDigit(s[i])
  }

  /** The value of a string of decimal digits, most significant first. */
  function DigitsValue(s: string): nat
    requires AllDigits(s)
  {
    if s == [] then 0 else DigitsValue(s[..|s| - 1]) * 10 + (s[|s| - 1] as int - '0' as int)
  }

  /**
   * `int(s)` for the strings this validator builds: a non-empty string of
   * ASCII digits is a number; anything else raises ValueError (None).
   */
  function ParseInt(s: string): Option<nat>
  {
    if |s| > 0 && AllDigits(s) then Some(DigitsValue(s)) else None
  }

  function DigitChar(d: nat): char
    requires d < 10
  {
    ('0' as int + d) as char
  }

  /** `str(n)` */
  function NatToString(n: nat): string
  {
    if n < 10 then [DigitChar(n)] else NatToString(n / 10) + [DigitChar(n % 10)]
  }

  function Pow10(k: nat): nat
  {
    if k == 0 then 1 else 10 * Pow10(k - 1)
  }

  lemma {:induction false} DigitsValueAppend(x: string, y: string)
    requires AllDigits(x) && AllDigits(y)
    ensures AllDigits(x + y)
    ensures DigitsValue(x + y) == DigitsValue(x) * Pow10(|y|) + DigitsValue(y)
  {
    AllDigitsAppend(x, y);
    if y == [] {
      assert x + y == x;
    } else {
      var y' := y[..|y| - 1];
      InitOfAppend(x, y);
      assert AllDigits(y') by {
        forall i | 0 <= i < |y'| ensures IsDigit(y'[i]) {
          assert y'[i] == y[i];
        }
      }
      DigitsValueAppend(x, y');
      var a, p, b, c := DigitsValue(x), Pow10(|y'|), DigitsValue(y'), y[|y| - 1] as int - '0' as int;
      assert DigitsValue(x + y) == (a * p + b) * 10 + c;
      assert DigitsValue(y) == b * 10 + c;
      assert Pow10(|y|) == 10 * p;
      ShiftDigit(a, p, b, c);
    }
  }

  lemma InitOfAppend(x: string, y: string)
    requires |y| > 0
    ensures (x + y)[..|x + y| - 1] == x + y[..|y| - 1]
    ensures (x + y)[|x + y| - 1] == y[|y| - 1]
  {
  }

  lemma ShiftDigit(a: int, p: int, b: int, c: int)
    ensures (a * p + b) * 10 + c == a * (10 * p) + (b * 10 + c)
  {
  }

  /** `str(n)` is a string of digits whose value is n; below 100 it has at most two characters. */
  lemma {:induction false} NatToStringValue(n: nat)
    ensures AllDigits(NatToString(n)) && |NatToString(n)| >= 1
    ensures DigitsValue(NatToString(n)) == n
    ensures n < 10 ==> |NatToString(n)| == 1
    ensures 10 <= n < 100 ==> |NatToString(n)| == 2
  {
    if n >= 10 {
      NatToStringValue(n / 10);
      var s := NatToString(n);
      assert s[..|s| - 1] == NatToString(n / 10);
    }
  }

  // ---------------------------------------------------------------------
  // LETTERS and __number_iban

  /**
   * The `LETTERS` translation table: '0'..'9' and 'A'..'Z' are mapped to
   * `str(i)` of their index in `string.digits + string.ascii_uppercase`;
   * no other character has an entry.
   */
  function Letters(c: char): (r: Option<string>)
    ensures r.Some? <==> IsDigit(c) || IsUpper(c)
    ensures IsDigit(c) ==> r == Some([c])
    ensures IsUpper(c) ==> |r.value| == 2 && AllDigits(r.value)
    ensures IsUpper(c) ==> DigitsValue(r.value) == c as int - 'A' as int + 10
  {
    if IsDigit(c) then
      assert NatToString(c as int - '0' as int) == [c];
      Some(NatToString(c as int - '0' as int))
    else if IsUpper(c) then
      NatToStringValue(c as int - 'A' as int + 10);
      Some(NatToString(c as int - 'A' as int + 10))
    else None
  }

  /** `s.translate(LETTERS)`: characters without an entry are kept as they are. */
  function Translate(s: string): string
  {
    if s == [] then []
    else (match Letters(s[0]) case Some(t) => t case None => [s[0]]) + Translate(s[1..])
  }

  lemma {:induction false} TranslateAppend(a: string, b: string)
    ensures Translate(a + b) == Translate(a) + Translate(b)
  {
    if a == [] {
      assert a + b == b;
    } else {
      assert (a + b)[0] == a[0];
      assert (a + b)[1..] == a[1..] + b;
      TranslateAppend(a[1..], b);
    }
  }

  /** A string of digits is left unchanged. */
  lemma {:induction false} TranslateDigits(s: string)
    requires AllDigits(s)
    ensures Translate(s) == s
  {
    if s != [] {
      TranslateDigits(s[1..]);
    }
  }

  predicate Alphanumeric(s: string) {
    forall i :: 0 <= i < |s| ==> IsDigit(s[i]) || IsUpper(s[i])
  }

  /**
   * The translation is all digits exactly when every character is a digit
   * or an upper-case letter: a lower-case letter, which the candidate
   * pattern admits, stays untranslated.
   */
  lemma {:induction false} TranslateAllDigits(s: string)
    ensures AllDigits(Translate(s)) <==> Alphanumeric(s)
  {
    if s != [] {
      TranslateAllDigits(s[1..]);
      var head := match Letters(s[0]) case Some(t) => t case None => [s[0]];
      assert Translate(s) == head + Translate(s[1..]);
      assert AllDigits(head) <==> IsDigit(s[0]) || IsUpper(s[0]);
      assert Alphanumeric(s) <==> (IsDigit(s[0]) || IsUpper(s[0])) && Alphanumeric(s[1..]) by {
        if Alphanumeric(s) {
          assert forall i :: 0 <= i < |s[1..]| ==> s[1..][i] == s[i + 1];
        }
        if (IsDigit(s[0]) || IsUpper(s[0])) && Alphanumeric(s[1..]) {
          forall i | 0 <= i < |s| ensures IsDigit(s[i]) || IsUpper(s[i]) {
            if i > 0 {
              assert s[i] == s[1..][i - 1];
            }
          }
        }
      }
      AllDigitsAppend(head, Translate(s[1..]));
    }
  }

  /** `iban[4:] + iban[:4]` */
  function Rotate(iban: string): string
  {
    Drop(iban, 4) + Take(iban, 4)
  }

  /** Moving the first four characters to the end keeps the length and the characters. */
  lemma RotatePreserves(iban: string)
    ensures |Rotate(iban)| == |iban|
    ensures multiset(Rotate(iban)) == multiset(iban)
  {
    if |iban| >= 4 {
      assert iban == iban[..4] + iban[4..];
    }
  }

  /** `__number_iban(iban)` */
  function NumberIban(iban: string): string
  {
    Translate(Rotate(iban))
  }

  // ---------------------------------------------------------------------
  // __generate_iban_check_digits and __valid_iban

  /** `'{:0>2}'.format(s)`: left-padded with '0' to two characters. */
  function PadLeft2(s: string): string
  {
    if |s| == 0 then "00" else if |s| == 1 then "0" + s else s
  }

  /** `iban[:2] + '00' + iban[4:]` */
  function ZeroCheckDigits(iban: string): string
  {
    Take(iban, 2) + "00" + Drop(iban, 4)
  }

  /** `__generate_iban_check_digits(iban)`; None when `int()` raises ValueError. */
  function GenerateCheckDigits(iban: string): Option<string>
  {
    match ParseInt(NumberIban(ZeroCheckDigits(iban)))
    case None => None
    case Some(n) => Some(PadLeft2(NatToString(98 - n % 97)))
  }

  /** `__valid_iban(iban)`: the numeral is 1 modulo 97; None when `int()` raises ValueError. */
  function ValidIban(iban: string): Option<bool>
  {
    match ParseInt(NumberIban(iban))
    case None => None
    case Some(n) => Some(n % 97 == 1)
  }

  /** The generated check digits are two digits `98 - (n mod 97)`, in "02".."98". */
  lemma CheckDigitsFormat(iban: string)
    requires GenerateCheckDigits(iban).Some?
    ensures var cd := GenerateCheckDigits(iban).value;
      |cd| == 2 && AllDigits(cd) && 2 <= DigitsValue(cd) <= 98
    ensures var n := ParseInt(NumberIban(ZeroCheckDigits(iban))).value;
      DigitsValue(GenerateCheckDigits(iban).value) == 98 - n % 97
  {
    var n := ParseInt(NumberIban(ZeroCheckDigits(iban))).value;
    var c := 98 - n % 97;
    NatToStringValue(c);
    var s := NatToString(c);
    if |s| == 1 {
      DigitsValueAppend("0", s);
      assert DigitsValue("0") == 0 by {
        assert "0"[..0] == [];
      }
    }
  }

  /** The check digits are computed from the characters outside positions 2 and 3 only. */
  lemma CheckDigitsIgnoreDeclared(a: string, b: string)
    requires Take(a, 2) == Take(b, 2) && Drop(a, 4) == Drop(b, 4)
    ensures GenerateCheckDigits(a) == GenerateCheckDigits(b)
  {
    assert ZeroCheckDigits(a) == ZeroCheckDigits(b);
  }

  lemma AllDigitsAppend(x: string, y: string)
    ensures AllDigits(x + y) <==> AllDigits(x) && AllDigits(y)
  {
    if AllDigits(x + y) {
      assert forall i :: 0 <= i < |x| ==> x[i] == (x + y)[i];
      assert forall i :: 0 <= i < |y| ==> y[i] == (x + y)[|x| + i];
    }
  }

  lemma AlphanumericAppend(x: string, y: string)
    ensures Alphanumeric(x + y) <==> Alphanumeric(x) && Alphanumeric(y)
  {
    if Alphanumeric(x + y) {
      assert forall i :: 0 <= i < |x| ==> x[i] == (x + y)[i];
      assert forall i :: 0 <= i < |y| ==> y[i] == (x + y)[|x| + i];
    }
  }

  /** Rotating a code whose first four characters are `a`. */
  lemma RotateSplit(a: string, b: string)
    requires |a| == 4
    ensures Rotate(a + b) == b + a
  {
    assert (a + b)[4..] == b;
    assert (a + b)[..4] == a;
  }

  lemma RotateShort(s: string)
    requires |s| <= 4
    ensures Rotate(s) == s
  {
    assert [] + s == s;
  }

  lemma ConcatAssoc(a: string, b: string, c: string)
    ensures a + (b + c) == (a + b) + c
  {
  }

  /** The numeral of the code with zeroed check digits is the translation of `iban[4:] + iban[:2]` followed by "00". */
  lemma ZeroedNumeral(iban: string)
    ensures NumberIban(ZeroCheckDigits(iban)) == Translate(Drop(iban, 4) + Take(iban, 2)) + "00"
  {
    var z := ZeroCheckDigits(iban);
    var head, tail := Take(iban, 2), Drop(iban, 4);
    if |iban| >= 4 {
      RotateSplit(head + "00", tail);
    } else {
      RotateShort(z);
      assert tail + (head + "00") == head + "00";
    }
    assert Rotate(z) == tail + (head + "00");
    TranslateAppend(tail, head + "00");
    TranslateAppend(head, "00");
    DoubleZero();
    TranslateDigits("00");
    assert Translate(head + "00") == Translate(head) + "00";
    TranslateAppend(tail, head);
    ConcatAssoc(Translate(tail), Translate(head), "00");
  }

  /** Generation raises ValueError exactly when a character outside positions 2 and 3 is neither a digit nor an upper-case letter. */
  lemma CheckDigitsRaise(iban: string)
    ensures GenerateCheckDigits(iban).Some? <==> Alphanumeric(Take(iban, 2) + Drop(iban, 4))
  {
    var head, tail := Take(iban, 2), Drop(iban, 4);
    ZeroedNumeral(iban);
    var t := Translate(tail + head);
    AllDigitsAppend(t, "00");
    TranslateAllDigits(tail + head);
    AlphanumericAppend(tail, head);
    AlphanumericAppend(head, tail);
  }

  /**
   * The numerals of the code and of its copy with zeroed check digits: with
   * `prefix` the translation of `iban[4:] + iban[:2]`, the first is
   * `prefix + iban[2:4]` and the second `prefix + "00"`.
   */
  lemma NumeralsSplit(iban: string) returns (prefix: string)
    requires |iban| >= 4
    ensures NumberIban(ZeroCheckDigits(iban)) == prefix + "00"
    ensures NumberIban(iban) == prefix + Translate(iban[2..4])
    ensures |prefix| >= 2
  {
    var head, cd, tail := iban[..2], iban[2..4], iban[4..];
    ZeroedNumeral(iban);
    prefix := Translate(tail + head);
    TakeSplit(iban);
    RotateSplit(head + cd, tail);
    ConcatAssoc(tail, head, cd);
    TranslateAppend(tail + head, cd);
    TranslateLength(tail + head);
  }

  lemma TakeSplit(iban: string)
    requires |iban| >= 4
    ensures iban == (iban[..2] + iban[2..4]) + iban[4..]
  {
  }

  lemma DoubleZero()
    ensures AllDigits("00") && DigitsValue("00") == 0
  {
    assert "00"[..1] == "0";
    assert "0"[..0] == "";
  }

  /**
   * With digits at positions 2 and 3, both numerals parse or neither does,
   * and they differ by the value of those two digits: the zeroed one is
   * `n0`, the other `n0 + iban[2:4]`.
   */
  lemma CheckValues(iban: string) returns (n0: nat)
    requires |iban| >= 4 && AllDigits(iban[2..4])
    ensures ParseInt(NumberIban(ZeroCheckDigits(iban))).Some? <==> ParseInt(NumberIban(iban)).Some?
    ensures ParseInt(NumberIban(ZeroCheckDigits(iban))).Some? ==>
      ParseInt(NumberIban(ZeroCheckDigits(iban))).value == n0 &&
      ParseInt(NumberIban(iban)).value == n0 + DigitsValue(iban[2..4])
  {
    var cd := iban[2..4];
    var prefix := NumeralsSplit(iban);
    TranslateDigits(cd);
    DoubleZero();
    AllDigitsAppend(prefix, "00");
    AllDigitsAppend(prefix, cd);
    n0 := 0;
    if AllDigits(prefix) {
      DigitsValueAppend(prefix, "00");
      DigitsValueAppend(prefix, cd);
      n0 := DigitsValue(prefix) * 100;
    }
  }

  lemma {:induction false} TranslateLength(s: string)
    ensures |Translate(s)| >= |s|
  {
    if s != [] {
      TranslateLength(s[1..]);
    }
  }

  lemma ModStep(n0: nat)
    ensures (n0 + (98 - n0 % 97)) % 97 == 1
  {
    var q := n0 / 97;
    assert n0 + (98 - n0 % 97) == 97 * (q + 1) + 1;
  }

  /**
   * If the declared check digits `iban[2:4]` equal the generated ones, the
   * MOD 97-10 test holds: the numeral is 1 modulo 97.
   */
  lemma CheckDigitsImplyValid(iban: string)
    requires GenerateCheckDigits(iban) == Some(Slice(iban, 2, 4))
    ensures ValidIban(iban) == Some(true)
  {
    CheckDigitsFormat(iban);
    assert |iban| >= 4;
    assert Slice(iban, 2, 4) == iban[2..4];
    var n0 := CheckValues(iban);
    ModStep(n0);
  }

  /** A two-digit string is the padded decimal form of its value, when that value is in 2..98. */
  lemma PaddedTwoDigits(cd: string)
    requires |cd| == 2 && AllDigits(cd)
    ensures PadLeft2(NatToString(DigitsValue(cd))) == cd
  {
    var hi, lo := cd[0] as int - '0' as int, cd[1] as int - '0' as int;
    assert cd[..1] == [cd[0]];
    assert cd[..1][..0] == [];
    assert DigitsValue(cd[..1]) == hi;
    assert DigitsValue(cd) == hi * 10 + lo;
    var c := hi * 10 + lo;
    if hi == 0 {
      assert NatToString(c) == [DigitChar(lo)];
    } else {
      assert c / 10 == hi && c % 10 == lo;
      assert NatToString(c) == NatToString(hi) + [DigitChar(lo)];
      assert NatToString(hi) == [DigitChar(hi)];
    }
  }

  /**
   * Conversely, a code that passes the MOD 97-10 test and declares its check
   * digits as two digits with value in 2..98 has exactly the generated check
   * digits.
   */
  lemma ValidImpliesCheckDigits(iban: string)
    requires ValidIban(iban) == Some(true)
    requires |Slice(iban, 2, 4)| == 2 && AllDigits(Slice(iban, 2, 4))
    requires 2 <= DigitsValue(Slice(iban, 2, 4)) <= 98
    ensures GenerateCheckDigits(iban) == Some(Slice(iban, 2, 4))
  {
    var cd := Slice(iban, 2, 4);
    assert |iban| >= 4;
    assert cd == iban[2..4];
    var n0 := CheckValues(iban);
    ModInverse(n0, DigitsValue(cd));
    PaddedTwoDigits(cd);
  }

  lemma ModInverse(n0: nat, c: nat)
    requires 2 <= c <= 98 && (n0 + c) % 97 == 1
    ensures 98 - n0 % 97 == c
  {
    var q := (n0 + c) / 97;
    assert n0 + c == 97 * q + 1;
    var r := n0 % 97;
    var p := n0 / 97;
    assert n0 == 97 * p + r;
    assert 97 * (q - p) == r + c - 1;
    assert 1 <= r + c - 1 <= 97 + 96;
    assert q - p == 1;
  }

  // ---------------------------------------------------------------------
  // validate_result

  /**
   * The score `validate_result` writes: 1.0 when the generated check digits
   * equal `text[2:4]` and the MOD 97-10 test holds, else 0; None when
   * `int()` raises ValueError. The `and` does not evaluate the MOD 97-10
   * test when the check digits differ.
   */
  function IbanScore(text: string): Option<real>
  {
    match GenerateCheckDigits(text)
    case None => None
    case Some(cd) =>
      if cd != Slice(text, 2, 4) then Some(0.0)
      else match ValidIban(text)
        case None => None
        case Some(valid) => Some(if valid then 1.0 else 0.0)
  }

  /**
   * The score is 1.0 exactly when the MOD 97-10 test holds and the declared
   * check digits are two digits with value in 2..98; a code whose check
   * digits match never raises.
   */
  lemma IbanScoreOne(text: string)
    ensures IbanScore(text) == Some(1.0) <==>
      && ValidIban(text) == Some(true)
      && |Slice(text, 2, 4)| == 2 && AllDigits(Slice(text, 2, 4))
      && 2 <= DigitsValue(Slice(text, 2, 4)) <= 98
    ensures GenerateCheckDigits(text) == Some(Slice(text, 2, 4)) ==> IbanScore(text) == Some(1.0)
  {
    if GenerateCheckDigits(text) == Some(Slice(text, 2, 4)) {
      CheckDigitsImplyValid(text);
      CheckDigitsFormat(text);
    }
    if && ValidIban(text) == Some(true)
       && |Slice(text, 2, 4)| == 2 && AllDigits(Slice(text, 2, 4))
       && 2 <= DigitsValue(Slice(text, 2, 4)) <= 98
    {
      ValidImpliesCheckDigits(text);
    }
  }

  /** The possible outcomes: a raise, score 0 or score 1. */
  lemma IbanScoreCases(text: string)
    ensures IbanScore(text) in {None, Some(0.0), Some(1.0)}
    ensures IbanScore(text).None? <==> !Alphanumeric(Take(text, 2) + Drop(text, 4))
  {
    CheckDigitsRaise(text);
    if GenerateCheckDigits(text) == Some(Slice(text, 2, 4)) {
      CheckDigitsImplyValid(text);
    }
  }

  /**
   * Round trip: putting the generated check digits into positions 2 and 3
   * of a code of length at least 4 gives a code that validates to 1.0.
   */
  lemma GeneratedCheckDigitsValidate(iban: string)
    requires |iban| >= 4 && GenerateCheckDigits(iban).Some?
    ensures var cd := GenerateCheckDigits(iban).value;
      IbanScore(iban[..2] + cd + iban[4..]) == Some(1.0)
  {
    var cd := GenerateCheckDigits(iban).value;
    CheckDigitsFormat(iban);
    var fixed := iban[..2] + cd + iban[4..];
    assert Take(fixed, 2) == Take(iban, 2) && Drop(fixed, 4) == Drop(iban, 4);
    CheckDigitsIgnoreDeclared(fixed, iban);
    assert Slice(fixed, 2, 4) == cd;
    IbanScoreOne(fixed);
  }

  /**
   * `validate_result(text, result)`: sets `result.score` to the IBAN score
   * and returns the same object; only the score changes. ValueError from
   * `int()` propagates with the score untouched.
   */
  method ValidateResult(text: string, result: RecognizerResult) returns (v: Validation)
    modifies result`score
    ensures IbanScore(text).None? ==> v == Raised(ValueError) && result.score == old(result.score)
    ensures IbanScore(text).Some? ==> v == Returned(result) && result.score == IbanScore(text).value
  {
    var generated := GenerateCheckDigits(text);
    if generated.None? {
      return Raised(ValueError);
    }
    var isValidIban := false;
    if generated.value == Slice(text, 2, 4) {
      var valid := ValidIban(text);
      if valid.None? {
        return Raised(ValueError);
      }
      isValidIban := valid.value;
    }
    result.score := if isValidIban then 1.0 else 0.0;
    return Returned(result);
  }
}
