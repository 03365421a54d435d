/**
 * The credit-card validator of
 * presidio-analyzer/analyzer/predefined_recognizers/credit_card_recognizer.py:
 * separators are stripped, the Luhn check sum of ISO/IEC 7812-1 (Annex B)
 * is computed, and the finding's score becomes exactly 1 or 0.
 */
module CreditCard {
  import opened Wrappers
  import opened Analyzer

  type Digit = d: int | 0 <= d <= 9

  // ---------------------------------------------------------------------
  // __sanitize_text

  /** `s.replace(c, '')`: every occurrence of `c` dropped. */
  function RemoveChar(s: string, c: char): string
  {
    if s == [] then [] else (if s[0] == c then [] else [s[0]]) + RemoveChar(s[1..], c)
  }

  /** `text.replace('-', '').replace(' ', '')` */
  function Sanitize(text: string): string
  {
    RemoveChar(RemoveChar(text, '-'), ' ')
  }

  /** `replace` leaves no occurrence of the character, and adds no character. */
  lemma {:induction false} RemoveCharRemoves(s: string, c: char)
    ensures c !in RemoveChar(s, c)
    ensures forall x :: x in RemoveChar(s, c) ==> x in s
  {
    if s != [] {
      RemoveCharRemoves(s[1..], c);
    }
  }

  /** The sanitised text holds no separator and no character the text did not hold. */
  lemma SanitizeRemovesSeparators(text: string)
    ensures '-' !in Sanitize(text) && ' ' !in Sanitize(text)
    ensures forall x :: x in Sanitize(text) ==> x in text
  {
    RemoveCharRemoves(text, '-');
    RemoveCharRemoves(RemoveChar(text, '-'), ' ');
  }

  predicate IsSeparator(c: char) {
    c == '-' || c == ' '
  }

  lemma {:induction false} RemoveCharAppend(a: string, b: string, c: char)
    ensures RemoveChar(a + b, c) == RemoveChar(a, c) + RemoveChar(b, c)
  {
    if a == [] {
      assert a + b == b;
    } else {
      var head := if a[0] == c then [] else [a[0]];
      assert (a + b)[0] == a[0];
      assert (a + b)[1..] == a[1..] + b;
      calc {
        RemoveChar(a + b, c);
        head + RemoveChar(a[1..] + b, c);
        { RemoveCharAppend(a[1..], b, c); }
        head + (RemoveChar(a[1..], c) + RemoveChar(b, c));
        (head + RemoveChar(a[1..], c)) + RemoveChar(b, c);
      }
    }
  }

  /**
   * Sanitizing works character by character: it distributes over
   * concatenation, drops a separator and keeps any other character. Together
   * these say that the other characters are all kept, in their order.
   */
  lemma SanitizeAppend(a: string, b: string)
    ensures Sanitize(a + b) == Sanitize(a) + Sanitize(b)
  {
    RemoveCharAppend(a, b, '-');
    RemoveCharAppend(RemoveChar(a, '-'), RemoveChar(b, '-'), ' ');
  }

  lemma RemoveCharOne(x: char, c: char)
    ensures RemoveChar([x], c) == if x == c then [] else [x]
  {
    assert [x][0] == x;
    assert [x][1..] == [];
    assert RemoveChar([], c) == [];
  }

  lemma SanitizeChar(x: char)
    ensures Sanitize([x]) == if IsSeparator(x) then [] else [x]
  {
    RemoveCharOne(x, '-');
    RemoveCharOne(x, ' ');
    assert RemoveChar([], ' ') == [];
  }

  /** A text without separators is left as it is. */
  lemma {:induction false} SanitizeNoSeparators(s: string)
    requires forall i :: 0 <= i < |s| ==> !IsSeparator(s[i])
    ensures Sanitize(s) == s
  {
    if s != [] {
      assert s == [s[0]] + s[1..];
      SanitizeNoSeparators(s[1..]);
      SanitizeAppend([s[0]], s[1..]);
      SanitizeChar(s[0]);
    }
  }

  // ---------------------------------------------------------------------
  // __luhn_checksum

  predicate IsDigit(c: char) {
    '0' <= c <= '9'
  }

  /** `[int(d) for d in text]`: one digit per character, ValueError on any other character. */
  function DigitsOf(text: string): (r: Option<seq<Digit>>)
    ensures r.Some? <==> forall i :: 0 <= i < |text| ==> IsDigit(text[i])
    ensures r.Some? ==> |r.value| == |text|
    ensures r.Some? ==> forall i :: 0 <= i < |text| ==> r.value[i] == text[i] as int - '0' as int
  {
    if text == [] then Some([])
    else if !IsDigit(text[0]) then None
    else match DigitsOf(text[1..])
      case None => None
      case Some(rest) => Some([text[0] as int - '0' as int] + rest)
  }

  /** `digits[-1::-2]`: the rightmost digit and every second one leftwards, right to left. */
  function OddDigits(ds: seq<Digit>): seq<Digit>
    decreases |ds|
  {
    if |ds| == 0 then []
    else if |ds| == 1 then [ds[0]]
    else [ds[|ds| - 1]] + OddDigits(ds[..|ds| - 2])
  }

  /** `digits[-2::-2]`: the digit left of the rightmost and every second one leftwards. */
  function EvenDigits(ds: seq<Digit>): seq<Digit>
  {
    if |ds| <= 1 then [] else OddDigits(ds[..|ds| - 1])
  }

  /** Dropping the rightmost digit turns the odd digits into the even ones and vice versa. */
  lemma {:induction false} OddEvenStep(ds: seq<Digit>)
    requires |ds| >= 1
    ensures OddDigits(ds) == [ds[|ds| - 1]] + EvenDigits(ds[..|ds| - 1])
    ensures EvenDigits(ds) == OddDigits(ds[..|ds| - 1])
  {
    var init := ds[..|ds| - 1];
    if |ds| >= 2 {
      assert init[..|init| - 1] == ds[..|ds| - 2];
    }
  }

  /**
   * The odd digits are the digits at distance 0, 2, 4, ... from the right
   * end, read right to left.
   */
  lemma {:induction false} OddDigitsAt(ds: seq<Digit>)
    ensures |OddDigits(ds)| == (|ds| + 1) / 2
    ensures forall k :: 0 <= k < |OddDigits(ds)| ==> OddDigits(ds)[k] == ds[|ds| - 1 - 2 * k]
  {
    if |ds| >= 2 {
      var rest := ds[..|ds| - 2];
      OddDigitsAt(rest);
      var odd := OddDigits(ds);
      assert odd == [ds[|ds| - 1]] + OddDigits(rest);
      forall k | 0 <= k < |odd|
        ensures odd[k] == ds[|ds| - 1 - 2 * k]
      {
        if k > 0 {
          assert odd[k] == OddDigits(rest)[k - 1] == rest[|rest| - 1 - 2 * (k - 1)];
        }
      }
    }
  }

  /**
   * The even digits are the digits at distance 1, 3, 5, ... from the right
   * end, read right to left.
   */
  lemma EvenDigitsAt(ds: seq<Digit>)
    ensures |EvenDigits(ds)| == |ds| / 2
    ensures forall k :: 0 <= k < |EvenDigits(ds)| ==> EvenDigits(ds)[k] == ds[|ds| - 2 - 2 * k]
  {
    if |ds| >= 2 {
      OddDigitsAt(ds[..|ds| - 1]);
    }
  }

  /** Together the odd and the even digits are exactly the digits of the input. */
  lemma {:induction false} OddEvenPartition(ds: seq<Digit>)
    ensures |OddDigits(ds)| + |EvenDigits(ds)| == |ds|
    ensures multiset(OddDigits(ds)) + multiset(EvenDigits(ds)) == multiset(ds)
  {
    if |ds| >= 1 {
      var init := ds[..|ds| - 1];
      OddEvenStep(ds);
      OddEvenPartition(init);
      MultisetSnoc(ds, OddDigits(init), EvenDigits(init));
    }
  }

  /** Splitting the last element off a sequence, for multisets. */
  lemma MultisetSnoc<T>(s: seq<T>, o: seq<T>, e: seq<T>)
    requires |s| >= 1
    requires |o| + |e| == |s| - 1 && multiset(o) + multiset(e) == multiset(s[..|s| - 1])
    ensures |[s[|s| - 1]] + e| + |o| == |s|
    ensures multiset([s[|s| - 1]] + e) + multiset(o) == multiset(s)
  {
    var init, last := s[..|s| - 1], s[|s| - 1];
    assert s == init + [last];
    calc {
      multiset([last] + e) + multiset(o);
      multiset{last} + (multiset(e) + multiset(o));
      multiset{last} + multiset(init);
      multiset(init + [last]);
    }
  }

  /** Python's `sum` over a list of integers. */
  function Sum(s: seq<int>): int
  {
    if s == [] then 0 else s[0] + Sum(s[1..])
  }

  /** The decimal digits of `n`, most significant first: `[int(d) for d in str(n)]`. */
  function NatDigits(n: nat): seq<Digit>
  {
    if n < 10 then [n] else NatDigits(n / 10) + [n % 10]
  }

  /** `sum(digits_of(d * 2))` */
  function DoubledDigitSum(d: Digit): int
  {
    Sum(NatDigits(2 * d as int))
  }

  /** For a digit d the digit sum of 2d is 2d when d < 5 and 2d - 9 otherwise. */
  lemma DoubledDigitSumValue(d: Digit)
    ensures DoubledDigitSum(d) == if d < 5 then 2 * d else 2 * d - 9
    ensures 0 <= DoubledDigitSum(d) <= 9
  {
    var n: nat := 2 * d as int;
    if n >= 10 {
      assert n / 10 == 1 && n % 10 == n - 10;
      assert NatDigits(1) == [1];
      assert NatDigits(n) == [1] + [n - 10];
      assert [1] + [n - 10] == [1, n - 10];
      assert [1, n - 10][1..] == [n - 10];
      assert [n - 10][1..] == [];
      assert Sum([n - 10]) == n - 10;
      assert Sum([1, n - 10]) == 1 + Sum([n - 10]);
    } else {
      assert NatDigits(n) == [n];
      assert [n][1..] == [];
    }
  }

  /** The digit sums of the doubled digits are ten distinct values. */
  lemma DoubledDigitSumInjective(x: Digit, y: Digit)
    requires x != y
    ensures DoubledDigitSum(x) != DoubledDigitSum(y)
  {
    DoubledDigitSumValue(x);
    DoubledDigitSumValue(y);
  }

  /** The sum of `sum(digits_of(d * 2))` over a list of digits. */
  function SumDoubled(es: seq<Digit>): int
  {
    if es == [] then 0 else DoubledDigitSum(es[0]) + SumDoubled(es[1..])
  }

  lemma {:induction false} SumDoubledSnoc(es: seq<Digit>, e: Digit)
    ensures SumDoubled(es + [e]) == SumDoubled(es) + DoubledDigitSum(e)
  {
    if es == [] {
      assert es + [e] == [e];
      assert [e][1..] == [];
    } else {
      assert (es + [e])[1..] == es[1..] + [e];
      SumDoubledSnoc(es[1..], e);
    }
  }

  lemma SumDoubledPrefix(es: seq<Digit>, k: nat)
    requires k < |es|
    ensures SumDoubled(es[..k + 1]) == SumDoubled(es[..k]) + Sum(NatDigits(es[k] as int * 2))
  {
    assert es[..k + 1] == es[..k] + [es[k]];
    SumDoubledSnoc(es[..k], es[k]);
  }

  /** What one digit contributes to the Luhn sum, doubled or not. */
  function Term(d: Digit, doubled: bool): int
  {
    if doubled then DoubledDigitSum(d) else d
  }

  /**
   * The Luhn sum as ISO/IEC 7812-1 Annex B describes it: the digits are
   * taken from the right; every second one, beginning with the one left of
   * the rightmost (`doubled` tells whether the rightmost is such a one),
   * contributes the digit sum of its double.
   */
  function LuhnSum(ds: seq<Digit>, doubled: bool): int
    decreases |ds|
  {
    if ds == [] then 0
    else Term(ds[|ds| - 1], doubled) + LuhnSum(ds[..|ds| - 1], !doubled)
  }

  /** The Luhn check value, in 0..9: `checksum % 10`. */
  function Luhn(ds: seq<Digit>): (r: int)
    ensures 0 <= r <= 9
  {
    LuhnSum(ds, false) % 10
  }

  /** The odd/even split of the source computes the Luhn sum of the reference definition. */
  lemma {:induction false} LuhnSumSplit(ds: seq<Digit>)
    ensures LuhnSum(ds, false) == Sum(OddDigits(ds)) + SumDoubled(EvenDigits(ds))
    ensures LuhnSum(ds, true) == SumDoubled(OddDigits(ds)) + Sum(EvenDigits(ds))
  {
    if ds != [] {
      var init := ds[..|ds| - 1];
      OddEvenStep(ds);
      LuhnSumSplit(init);
      var odd := OddDigits(ds);
      assert odd[1..] == EvenDigits(init);
    }
  }

  /**
   * `__luhn_checksum(text)`: the loop adds the digit sums of the doubled
   * even digits to the sum of the odd digits; the result is the Luhn value.
   */
  method LuhnChecksum(text: string) returns (r: Result<int, PyError>)
    ensures DigitsOf(text).None? ==> r == Err(ValueError)
    ensures DigitsOf(text).Some? ==> r == Ok(Luhn(DigitsOf(text).value))
  {
    var parsed := DigitsOf(text);
    if parsed.None? {
      return Err(ValueError);
    }
    var digits := parsed.value;
    var oddDigits := OddDigits(digits);
    var evenDigits := EvenDigits(digits);
    var checksum := 0;
    checksum := checksum + Sum(oddDigits);
    for k := 0 to |evenDigits|
      invariant checksum == Sum(oddDigits) + SumDoubled(evenDigits[..k])
    {
      SumDoubledPrefix(evenDigits, k);
      checksum := checksum + Sum(NatDigits(evenDigits[k] as int * 2));
    }
    assert evenDigits[..|evenDigits|] == evenDigits;
    LuhnSumSplit(digits);
    return Ok(checksum % 10);
  }

  // ---------------------------------------------------------------------
  // validate_result

  /** The score `validate_result` writes: 1 when the Luhn value is 0, else 0; None when it raises. */
  function CardScore(text: string): (r: Option<real>)
    ensures r.Some? <==> forall i :: 0 <= i < |Sanitize(text)| ==> IsDigit(Sanitize(text)[i])
    ensures r.Some? ==> r.value == 0.0 || r.value == 1.0
  {
    match DigitsOf(Sanitize(text))
    case None => None
    case Some(ds) => Some(if Luhn(ds) == 0 then 1.0 else 0.0)
  }

  /**
   * `validate_result(text, result)`: sets `result.score` to 1 or 0 by the
   * Luhn value of the sanitised text and returns the same object; only the
   * score changes. A non-digit left after sanitising raises ValueError.
   */
  method ValidateResult(text: string, result: RecognizerResult) returns (v: Validation)
    modifies result`score
    ensures CardScore(text).None? ==> v == Raised(ValueError) && result.score == old(result.score)
    ensures CardScore(text).Some? ==> v == Returned(result) && result.score == CardScore(text).value
  {
    var sanitizedText := Sanitize(text);
    var res := LuhnChecksum(sanitizedText);
    if res.Err? {
      return Raised(res.error);
    }
    if res.value == 0 {
      result.score := 1.0;
    } else {
      result.score := 0.0;
    }
    return Returned(result);
  }

  // ---------------------------------------------------------------------
  // Properties of the validation outcome

  /** Inserting a '-' or ' ' separator anywhere never changes the outcome. */
  lemma SeparatorInsertionKeepsScore(a: string, b: string, sep: char)
    requires IsSeparator(sep)
    ensures CardScore(a + [sep] + b) == CardScore(a + b)
  {
    assert a + [sep] + b == (a + [sep]) + b;
    SanitizeAppend(a + [sep], b);
    SanitizeAppend(a, [sep]);
    SanitizeChar(sep);
    SanitizeAppend(a, b);
    assert Sanitize(a) + [] == Sanitize(a);
  }

  /** A sequence that agrees with `ds` everywhere except possibly at index `i`. */
  ghost predicate DiffersOnlyAt(ds: seq<Digit>, es: seq<Digit>, i: int)
  {
    |ds| == |es| && 0 <= i < |ds| && forall k :: 0 <= k < |ds| && k != i ==> ds[k] == es[k]
  }

  /** Changing the digit at index `i` changes the Luhn sum by the change of that digit's term. */
  lemma {:induction false} LuhnSumOneDigit(ds: seq<Digit>, es: seq<Digit>, i: int, doubled: bool)
    requires DiffersOnlyAt(ds, es, i)
    ensures var atI := if (|ds| - 1 - i) % 2 == 0 then doubled else !doubled;
      LuhnSum(ds, doubled) - Term(ds[i], atI) == LuhnSum(es, doubled) - Term(es[i], atI)
  {
    var n := |ds|;
    var atI := if (n - 1 - i) % 2 == 0 then doubled else !doubled;
    if i == n - 1 {
      assert ds[..n - 1] == es[..n - 1];
    } else {
      var dsInit, esInit := ds[..n - 1], es[..n - 1];
      assert DiffersOnlyAt(dsInit, esInit, i) by {
        forall k | 0 <= k < n - 1 && k != i ensures dsInit[k] == esInit[k] {
          assert dsInit[k] == ds[k] && esInit[k] == es[k];
        }
      }
      LuhnSumOneDigit(dsInit, esInit, i, !doubled);
      ParityFlip(n - 1 - i);
      assert (if (|dsInit| - 1 - i) % 2 == 0 then !doubled else doubled) == atI;
      assert dsInit[i] == ds[i] && esInit[i] == es[i];
      var x, y := LuhnSum(dsInit, !doubled), LuhnSum(esInit, !doubled);
      assert LuhnSum(ds, doubled) == Term(ds[n - 1], doubled) + x;
      assert LuhnSum(es, doubled) == Term(es[n - 1], doubled) + y;
      assert ds[n - 1] == es[n - 1];
    }
  }

  lemma ParityFlip(j: int)
    ensures (j - 1) % 2 == 0 <==> j % 2 != 0
  {
    var q := j / 2;
    assert j == 2 * q + j % 2;
    if j % 2 == 0 {
      assert j - 1 == 2 * (q - 1) + 1;
    } else {
      assert j - 1 == 2 * q;
    }
  }

  /**
   * The Luhn check detects every single-digit error: a valid number with one
   * digit replaced by another is invalid.
   */
  lemma SingleDigitErrorDetected(ds: seq<Digit>, es: seq<Digit>, i: int)
    requires DiffersOnlyAt(ds, es, i) && ds[i] != es[i]
    requires Luhn(ds) == 0
    ensures Luhn(es) != 0
  {
    var atI := if (|ds| - 1 - i) % 2 == 0 then false else true;
    LuhnSumOneDigit(ds, es, i, false);
    DoubledDigitSumValue(ds[i]);
    DoubledDigitSumValue(es[i]);
    if atI {
      DoubledDigitSumInjective(ds[i], es[i]);
    }
    ModTenShift(LuhnSum(ds, false), Term(ds[i], atI), Term(es[i], atI));
  }

  /** A multiple of ten changed by the difference of two distinct digits is not a multiple of ten. */
  lemma ModTenShift(x: int, t: int, u: int)
    requires x % 10 == 0 && 0 <= t <= 9 && 0 <= u <= 9 && t != u
    ensures (x - t + u) % 10 != 0
  {
    var q := x / 10;
    assert x == 10 * q;
    if u > t {
      ModTen(x - t + u, q, u - t);
    } else {
      ModTen(x - t + u, q - 1, 10 + u - t);
    }
  }

  lemma ModTen(y: int, q: int, r: int)
    requires y == 10 * q + r && 0 <= r < 10
    ensures y % 10 == r
  {
  }

  /** One more digit on the right of a prefix adds that digit's term. */
  lemma LuhnStep(ds: seq<Digit>, k: nat, doubled: bool, acc: int)
    requires k < |ds| && LuhnSum(ds[..k], !doubled) == acc
    ensures LuhnSum(ds[..k + 1], doubled) == Term(ds[k], doubled) + acc
  {
    assert ds[..k + 1][..k] == ds[..k];
  }

  /** The Luhn sum of the left half of the end-to-end test card. */
  lemma ExampleDigitsLeft(ds: seq<Digit>)
    requires |ds| == 16
    requires ds[0] == 4 && ds[1] == 0 && ds[2] == 9 && ds[3] == 5 && ds[4] == 2 && ds[5] == 6 && ds[6] == 0 && ds[7] == 9
    ensures LuhnSum(ds[..8], false) == 41
  {
    DoubledDigitSumValue(0);
    DoubledDigitSumValue(2);
    DoubledDigitSumValue(4);
    DoubledDigitSumValue(9);
    assert ds[..0] == [];
    LuhnStep(ds, 0, true, 0);
    LuhnStep(ds, 1, false, 8);
    LuhnStep(ds, 2, true, 8);
    LuhnStep(ds, 3, false, 17);
    LuhnStep(ds, 4, true, 22);
    LuhnStep(ds, 5, false, 26);
    LuhnStep(ds, 6, true, 32);
    LuhnStep(ds, 7, false, 32);
  }

  /** The Luhn sum of the whole card, from that of its left half. */
  lemma ExampleDigitsRight(ds: seq<Digit>)
    requires |ds| == 16
    requires ds[8] == 9 && ds[9] == 3 && ds[10] == 9 && ds[11] == 3 && ds[12] == 4 && ds[13] == 9 && ds[14] == 3 && ds[15] == 2
    requires LuhnSum(ds[..8], false) == 41
    ensures LuhnSum(ds[..16], false) == 90
  {
    DoubledDigitSumValue(3);
    DoubledDigitSumValue(4);
    DoubledDigitSumValue(9);
    LuhnStep(ds, 8, true, 41);
    LuhnStep(ds, 9, false, 50);
    LuhnStep(ds, 10, true, 53);
    LuhnStep(ds, 11, false, 62);
    LuhnStep(ds, 12, true, 65);
    LuhnStep(ds, 13, false, 73);
    LuhnStep(ds, 14, true, 82);
    LuhnStep(ds, 15, false, 88);
  }

  /** The digits of the analyzer's end-to-end test card have Luhn value 0. */
  lemma ExampleDigitsLuhn(ds: seq<Digit>)
    requires |ds| == 16
    requires ds[0] == 4 && ds[1] == 0 && ds[2] == 9 && ds[3] == 5 && ds[4] == 2 && ds[5] == 6 && ds[6] == 0 && ds[7] == 9 && ds[8] == 9 && ds[9] == 3 && ds[10] == 9 && ds[11] == 3 && ds[12] == 4 && ds[13] == 9 && ds[14] == 3 && ds[15] == 2
    ensures Luhn(ds) == 0
  {
    ExampleDigitsLeft(ds);
    ExampleDigitsRight(ds);
    assert ds[..16] == ds;
  }

  /** The separator-free digits of the end-to-end test card validate to score 1. */
  lemma ExampleDigitsValidate(t: string)
    requires |t| == 16
    requires t[0] == '4' && t[1] == '0' && t[2] == '9' && t[3] == '5' && t[4] == '2' && t[5] == '6' && t[6] == '0' && t[7] == '9' && t[8] == '9' && t[9] == '3' && t[10] == '9' && t[11] == '3' && t[12] == '4' && t[13] == '9' && t[14] == '3' && t[15] == '2'
    ensures CardScore(t) == Some(1.0)
  {
    SanitizeNoSeparators(t);
    var ds := DigitsOf(t).value;
    ExampleDigitsLuhn(ds);
  }

  /** Joining two texts with '-' sanitizes like writing them together. */
  lemma SanitizeDash(x: string, y: string)
    ensures Sanitize(x + "-" + y) == Sanitize(x) + Sanitize(y)
  {
    SanitizeAppend(x + "-", y);
    SanitizeAppend(x, "-");
    SanitizeChar('-');
    assert Sanitize(x) + [] == Sanitize(x);
  }

  /** A number written as four groups joined by '-' validates like the groups written together. */
  lemma GroupedNumberScore(s: string, a: string, b: string, c: string, d: string)
    requires s == a + "-" + b + "-" + c + "-" + d
    ensures CardScore(s) == CardScore(a + b + c + d)
  {
    var ab := a + "-" + b;
    var abc := ab + "-" + c;
    assert s == abc + "-" + d;
    SanitizeDash(abc, d);
    SanitizeDash(ab, c);
    SanitizeDash(a, b);
    SanitizeAppend(a + b + c, d);
    SanitizeAppend(a + b, c);
    SanitizeAppend(a, b);
  }

  /** The end-to-end test card, given character by character, validates to score 1. */
  lemma ExampleCardText(s: string)
    requires |s| == 19
    requires s[0] == '4' && s[1] == '0' && s[2] == '9' && s[3] == '5' && s[4] == '-' && s[5] == '2' && s[6] == '6' && s[7] == '0' && s[8] == '9' && s[9] == '-' && s[10] == '9' && s[11] == '3' && s[12] == '9' && s[13] == '3' && s[14] == '-' && s[15] == '4' && s[16] == '9' && s[17] == '3' && s[18] == '2'
    ensures CardScore(s) == Some(1.0)
  {
    var a, b, c, d := s[..4], s[5..9], s[10..14], s[15..];
    assert s == a + "-" + b + "-" + c + "-" + d;
    GroupedNumberScore(s, a, b, c, d);
    ExampleDigitsValidate(a + b + c + d);
  }

  /** The card number of the analyzer's end-to-end test validates to score 1. */
  lemma ExampleCardValidates()
    ensures CardScore("4095-2609-9393-4932") == Some(1.0)
  {
    ExampleCardText("4095-2609-9393-4932");
  }
}
