/**
 * Bitcoin address validation of the crypto recognizer
 * (presidio-analyzer/analyzer/predefined_recognizers/crypto_recognizer.py):
 * the candidate is base-58 decoded into a 25-byte big-endian value whose
 * last 4 bytes must equal the first 4 bytes of the double SHA-256 of the
 * leading 21 bytes (the Base58Check layout). SHA-256 is a parameter.
 */
module Crypto {
  import opened Wrappers
  import opened Analyzer

  type Byte = x: int | 0 <= x < 256

  /**
   * The base-58 alphabet of `__decode_base58`, written in runs of
   * consecutive characters; the gaps are '0', 'I', 'O' and 'l'.
   */
  const Digits58: string := "123456789" + "ABCDEFGH" + "JKLMN" + "PQRSTUVWXYZ" + "abcdefghijk" + "mnopqrs" + "tuvwxyz"

  // The alphabet

  /** The `n` consecutive characters from `lo` on. */
  function CharRange(lo: char, n: nat): (r: string)
    requires lo as int + n < 0xD800
    ensures |r| == n
    decreases n
  {
    if n == 0 then [] else [lo] + CharRange((lo as int + 1) as char, n - 1)
  }

  lemma {:induction false} CharRangeAt(lo: char, n: nat, i: nat)
    requires lo as int + n < 0xD800 && i < n
    ensures CharRange(lo, n)[i] as int == lo as int + i
    decreases n
  {
    if i > 0 {
      CharRangeAt((lo as int + 1) as char, n - 1, i - 1);
    }
  }

  /** The character of digit `d`, by the runs of the alphabet. */
  function Char58(d: nat): char
    requires d < 58
  {
    if d < 9 then ('1' as int + d) as char
    else if d < 17 then ('A' as int + (d - 9)) as char
    else if d < 22 then ('J' as int + (d - 17)) as char
    else if d < 33 then ('P' as int + (d - 22)) as char
    else if d < 44 then ('a' as int + (d - 33)) as char
    else ('m' as int + (d - 44)) as char
  }

  /** The digit of character `c`, None for a character outside the alphabet. */
  function Digit58(c: char): (r: Option<nat>)
    ensures r.Some? ==> r.value < 58 && Char58(r.value) == c
    ensures r.None? ==> forall d :: 0 <= d < 58 ==> Char58(d) != c
  {
    if '1' <= c <= '9' then Some(c as int - '1' as int)
    else if 'A' <= c <= 'H' then Some(c as int - 'A' as int + 9)
    else if 'J' <= c <= 'N' then Some(c as int - 'J' as int + 17)
    else if 'P' <= c <= 'Z' then Some(c as int - 'P' as int + 22)
    else if 'a' <= c <= 'k' then Some(c as int - 'a' as int + 33)
    else if 'm' <= c <= 'z' then Some(c as int - 'm' as int + 44)
    else None
  }

  /** Digit order is character order: the alphabet ascends. */
  lemma Char58Ascending(d: nat, e: nat)
    requires d < e < 58
    ensures Char58(d) < Char58(e)
  {
  }

  /** Position `d` of the alphabet, inside the run `run` of `n` characters from `lo` that starts at `offset`. */
  lemma RunAt(run: string, lo: char, n: nat, offset: nat, d: nat)
    requires lo as int + n < 0xD800 && run == CharRange(lo, n)
    requires offset <= d < offset + n
    ensures run[d - offset] as int == lo as int + (d - offset)
  {
    CharRangeAt(lo, n, d - offset);
  }

  // One lemma per run keeps each literal in a proof of its own.

  lemma RunOneToNine(d: nat)
    requires 0 <= d < 9
    ensures Digits58[d] == Char58(d)
  {
    RunAt("123456789", '1', 9, 0, d);
  }

  lemma RunUpperAToH(d: nat)
    requires 9 <= d < 17
    ensures Digits58[d] == Char58(d)
  {
    RunAt("ABCDEFGH", 'A', 8, 9, d);
  }

  lemma RunUpperJToN(d: nat)
    requires 17 <= d < 22
    ensures Digits58[d] == Char58(d)
  {
    RunAt("JKLMN", 'J', 5, 17, d);
  }

  lemma RunUpperPToZ(d: nat)
    requires 22 <= d < 33
    ensures Digits58[d] == Char58(d)
  {
    RunAt("PQRSTUVWXYZ", 'P', 11, 22, d);
  }

  lemma RunLowerAToK(d: nat)
    requires 33 <= d < 44
    ensures Digits58[d] == Char58(d)
  {
    RunAt("abcdefghijk", 'a', 11, 33, d);
  }

  lemma RunLowerMToS(d: nat)
    requires 44 <= d < 51
    ensures Digits58[d] == Char58(d)
  {
    RunAt("mnopqrs", 'm', 7, 44, d);
  }

  lemma RunLowerTToZ(d: nat)
    requires 51 <= d < 58
    ensures Digits58[d] == Char58(d)
  {
    RunAt("tuvwxyz", 't', 7, 51, d);
  }

  /** Position `d` of the alphabet holds `Char58(d)`. */
  lemma AlphabetAt(d: nat)
    requires d < 58
    ensures |Digits58| == 58 && Digits58[d] == Char58(d)
  {
    if d < 9 {
      RunOneToNine(d);
    } else if d < 17 {
      RunUpperAToH(d);
    } else if d < 22 {
      RunUpperJToN(d);
    } else if d < 33 {
      RunUpperPToZ(d);
    } else if d < 44 {
      RunLowerAToK(d);
    } else if d < 51 {
      RunLowerMToS(d);
    } else {
      RunLowerTToZ(d);
    }
  }

  /** A character is in the alphabet exactly when it has a digit, and then it sits at that position. */
  lemma AlphabetMember(c: char)
    ensures c in Digits58 <==> Digit58(c).Some?
    ensures Digit58(c).Some? ==> Digits58[Digit58(c).value] == c
  {
    if Digit58(c).Some? {
      AlphabetAt(Digit58(c).value);
    }
    if c in Digits58 {
      var d :| 0 <= d < |Digits58| && Digits58[d] == c;
      AlphabetAt(d);
    }
  }

  /** 58 distinct characters, none of them '0', 'O', 'I' or 'l'. */
  lemma AlphabetShape()
    ensures |Digits58| == 58
    ensures forall d, e :: 0 <= d < e < |Digits58| ==> Digits58[d] != Digits58[e]
    ensures '0' !in Digits58 && 'O' !in Digits58 && 'I' !in Digits58 && 'l' !in Digits58
  {
    AlphabetAt(0);
    forall d, e | 0 <= d < e < |Digits58| ensures Digits58[d] != Digits58[e] {
      AlphabetAt(d);
      AlphabetAt(e);
      Char58Ascending(d, e);
    }
    AlphabetMember('0');
    AlphabetMember('O');
    AlphabetMember('I');
    AlphabetMember('l');
  }

  // Python's str.index

  /** `s.index(c)`: the first position of `c` in `s`; None where Python raises ValueError. */
  function IndexOf(s: string, c: char): (r: Option<nat>)
    ensures r.Some? <==> c in s
    ensures r.Some? ==> r.value < |s| && s[r.value] == c && c !in s[..r.value]
  {
    if |s| == 0 then None
    else if s[0] == c then Some(0)
    else match IndexOf(s[1..], c)
      case None => None
      case Some(i) =>
        assert s[..i + 1] == [s[0]] + s[1..][..i];
        Some(i + 1)
  }

  /** `digits58.index(c)` is the digit of `c`: the alphabet lists the digits in order. */
  lemma IndexIsDigit(c: char)
    ensures IndexOf(Digits58, c) == Digit58(c)
  {
    AlphabetMember(c);
    var r := IndexOf(Digits58, c);
    if r.Some? {
      var d := Digit58(c).value;
      AlphabetShape();
    }
  }

  /** The digits of `bc`, None if one of its characters is not in the alphabet. */
  function Indices(bc: string): (r: Option<seq<nat>>)
    ensures r.Some? <==> forall i :: 0 <= i < |bc| ==> Digit58(bc[i]).Some?
    ensures r.Some? ==> |r.value| == |bc|
    ensures r.Some? ==> forall i :: 0 <= i < |bc| ==> Digit58(bc[i]) == Some(r.value[i])
  {
    if |bc| == 0 then Some([])
    else
      var init := bc[..|bc| - 1];
      assert forall i :: 0 <= i < |init| ==> init[i] == bc[i];
      match (Indices(init), Digit58(bc[|bc| - 1]))
      case (Some(ds), Some(d)) => Some(ds + [d])
      case (None, _) =>
        assert (exists i :: 0 <= i < |init| && Digit58(init[i]).None?);
        None
      case (_, None) => None
  }

  // Positional values

  function Pow(b: nat, e: nat): nat
  {
    if e == 0 then 1 else b * Pow(b, e - 1)
  }

  lemma {:induction false} PowAdd(b: nat, m: nat, n: nat)
    ensures Pow(b, m + n) == Pow(b, m) * Pow(b, n)
  {
    if m > 0 {
      PowAdd(b, m - 1, n);
      var p, q := Pow(b, m - 1), Pow(b, n);
      assert Pow(b, m + n) == b * Pow(b, (m - 1) + n);
      MulAssoc(b, p, q);
    }
  }

  lemma MulAssoc(a: nat, b: nat, c: nat)
    ensures a * (b * c) == (a * b) * c
  {
  }

  lemma MulSwap(a: nat, b: nat, c: nat)
    ensures a * (b * c) == (a * c) * b
  {
  }

  lemma MulDistrib(a: nat, b: nat, c: nat)
    ensures a * c + b * c == (a + b) * c
  {
  }

  lemma MulMonotone(a: nat, b: nat, c: nat)
    requires a <= b
    ensures a * c <= b * c
  {
  }

  lemma {:induction false} PowMonotone(b: nat, m: nat, n: nat)
    requires b >= 1 && m <= n
    ensures Pow(b, m) <= Pow(b, n)
  {
    if m < n {
      PowMonotone(b, m, n - 1);
      MulMonotone(1, b, Pow(b, n - 1));
    }
  }

  /**
   * The big-endian positional value of the digits `ds` in base `base`:
   * the sum of `ds[i] * base^(|ds| - 1 - i)`, most significant first.
   */
  function Positional(ds: seq<nat>, base: nat): nat
  {
    if |ds| == 0 then 0 else ds[0] * Pow(base, |ds| - 1) + Positional(ds[1..], base)
  }

  /** Appending a digit multiplies the value by the base and adds the digit (Horner's step). */
  lemma {:induction false} PositionalSnoc(ds: seq<nat>, d: nat, base: nat)
    ensures Positional(ds + [d], base) == Positional(ds, base) * base + d
  {
    if |ds| > 0 {
      var e := ds + [d];
      assert e[0] == ds[0] && e[1..] == ds[1..] + [d];
      PositionalSnoc(ds[1..], d, base);
      var h, p, rest := ds[0], Pow(base, |ds| - 1), Positional(ds[1..], base);
      assert Pow(base, |e| - 1) == base * p;
      assert Positional(e, base) == h * (base * p) + (rest * base + d);
      MulSwap(h, base, p);
      MulDistrib(h * p, rest, base);
    }
  }

  /** A number with `k` digits below the base is below base^k. */
  lemma {:induction false} PositionalBound(ds: seq<nat>, base: nat)
    requires forall i :: 0 <= i < |ds| ==> ds[i] < base
    ensures Positional(ds, base) < Pow(base, |ds|)
  {
    if |ds| > 0 {
      var p, rest := Pow(base, |ds| - 1), Positional(ds[1..], base);
      PositionalBound(ds[1..], base);
      assert rest < p;
      MulMonotone(ds[0], base - 1, p);
      assert (base - 1) * p + p == base * p;
    }
  }

  /** `k` copies of `x`. */
  function Repeat<T>(x: T, k: nat): (r: seq<T>)
    ensures |r| == k && forall i :: 0 <= i < k ==> r[i] == x
  {
    seq(k, _ => x)
  }

  /** Leading zero digits do not change the value. */
  lemma {:induction false} LeadingZeros(k: nat, ds: seq<nat>, base: nat)
    ensures Positional(Repeat(0, k) + ds, base) == Positional(ds, base)
  {
    if k > 0 {
      var zs := Repeat(0, k);
      var e := zs + ds;
      assert e[0] == 0 && e[1..] == Repeat(0, k - 1) + ds;
      assert Positional(e, base) == 0 * Pow(base, |e| - 1) + Positional(e[1..], base);
      LeadingZeros(k - 1, ds, base);
    } else {
      assert Repeat(0, k) + ds == ds;
    }
  }

  // int.to_bytes(length, 'big')

  /** The `length` low-order bytes of `n`, most significant first. */
  function ToBytesBE(n: nat, length: nat): (r: seq<Byte>)
    ensures |r| == length
  {
    if length == 0 then [] else ToBytesBE(n / 256, length - 1) + [n % 256]
  }

  /** For `n < 256^length` the bytes are exactly `n` in big-endian order. */
  lemma {:induction false} ToBytesValue(n: nat, length: nat)
    requires n < Pow(256, length)
    ensures Positional(ToBytesBE(n, length), 256) == n
  {
    if length > 0 {
      assert n / 256 < Pow(256, length - 1);
      ToBytesValue(n / 256, length - 1);
      PositionalSnoc(ToBytesBE(n / 256, length - 1), n % 256, 256);
    }
  }

  /** Conversely every byte string is the encoding of its own value. */
  lemma {:induction false} BytesOfValue(bs: seq<Byte>)
    ensures ToBytesBE(Positional(bs, 256), |bs|) == bs
  {
    if |bs| > 0 {
      var init, last := bs[..|bs| - 1], bs[|bs| - 1];
      assert bs == init + [last];
      PositionalSnoc(init, last, 256);
      var v := Positional(init, 256);
      assert (v * 256 + last) / 256 == v && (v * 256 + last) % 256 == last;
      BytesOfValue(init);
    }
  }

  // __decode_base58

  /**
   * What `__decode_base58(bc, length)` returns: the base-58 value of `bc`
   * as `length` big-endian bytes; ValueError for a character outside the
   * alphabet, OverflowError when the value needs more than `length` bytes.
   * A character has no digit exactly when it is outside the alphabet
   * (AlphabetMember); the candidate pattern admits '0', which the alphabet
   * lacks (AlphabetShape), so such a candidate raises ValueError.
   */
  function Base58Decode(bc: string, length: nat): (r: Result<seq<Byte>, PyError>)
    ensures r.Ok? ==> |r.value| == length
    ensures r == Err(ValueError) <==> exists i :: 0 <= i < |bc| && Digit58(bc[i]).None?
  {
    match Indices(bc)
    case None => Err(ValueError)
    case Some(ds) =>
      var n := Positional(ds, 58);
      if n < Pow(256, length) then Ok(ToBytesBE(n, length)) else Err(OverflowError)
  }

  /** `__decode_base58`: Horner's rule over the characters, then `to_bytes`. */
  method DecodeBase58(bc: string, length: nat) returns (r: Result<seq<Byte>, PyError>)
    ensures r == Base58Decode(bc, length)
    ensures r.Ok? ==> |r.value| == length && Positional(r.value, 256) == Positional(Indices(bc).value, 58)
  {
    var n: nat := 0;
    for k := 0 to |bc|
      invariant Indices(bc[..k]).Some? && n == Positional(Indices(bc[..k]).value, 58)
    {
      var d := IndexOf(Digits58, bc[k]);
      IndexIsDigit(bc[k]);
      if d.None? {
        assert bc[k] == bc[..k + 1][k];
        return Err(ValueError);
      }
      assert bc[..k + 1][..k] == bc[..k];
      PositionalSnoc(Indices(bc[..k]).value, d.value, 58);
      n := n * 58 + d.value;
    }
    assert bc[..|bc|] == bc;
    if n >= Pow(256, length) {
      return Err(OverflowError);
    }
    ToBytesValue(n, length);
    return Ok(ToBytesBE(n, length));
  }

  /** Leading '1' characters (digit 0) do not change the decoded bytes. */
  lemma LeadingOnes(k: nat, bc: string, length: nat)
    ensures Base58Decode(Repeat('1', k) + bc, length) == Base58Decode(bc, length)
  {
    var s := Repeat('1', k) + bc;
    if Indices(bc).Some? {
      var ds := Indices(bc).value;
      assert forall i :: 0 <= i < |s| ==> Digit58(s[i]).Some? by {
        forall i | 0 <= i < |s| ensures Digit58(s[i]).Some? {
          if i >= k { assert s[i] == bc[i - k]; }
        }
      }
      var es := Indices(s).value;
      assert es == Repeat(0, k) + ds by {
        forall i | 0 <= i < |s| ensures es[i] == (Repeat(0, k) + ds)[i] {
          if i >= k { assert s[i] == bc[i - k]; }
        }
      }
      LeadingZeros(k, ds, 58);
    } else {
      var i :| 0 <= i < |bc| && Digit58(bc[i]).None?;
      assert s[k + i] == bc[i];
    }
  }

  lemma Base58Powers()
    ensures Pow(58, 34) < Pow(256, 25) <= 2 * Pow(58, 34)
  {
    assert Pow(58, 10) == 430804206899405824;
    assert Pow(58, 4) == 11316496;
    PowAdd(58, 10, 10);
    PowAdd(58, 20, 10);
    PowAdd(58, 30, 4);
    assert Pow(256, 5) == 1099511627776;
    PowAdd(256, 5, 5);
    PowAdd(256, 10, 5);
    PowAdd(256, 15, 5);
    PowAdd(256, 20, 5);
  }

  /**
   * Every string the candidate pattern admits has at most 34 characters,
   * and 58^34 < 256^25: such a string decodes to 25 bytes or raises ValueError, never OverflowError.
   */
  lemma ShortCandidatesFit(bc: string)
    requires |bc| <= 34
    ensures Base58Decode(bc, 25) != Err(OverflowError)
  {
    if Indices(bc).Some? {
      var ds := Indices(bc).value;
      PositionalBound(ds, 58);
      PowMonotone(58, |bc|, 34);
      Base58Powers();
    }
  }

  /** A 35-character address whose first digit is at least 2 does not fit in 25 bytes. */
  lemma LongAddressOverflows(bc: string)
    requires |bc| == 35 && Indices(bc).Some? && bc[0] != '1' && bc[0] != '2'
    ensures Base58Decode(bc, 25) == Err(OverflowError)
  {
    var ds := Indices(bc).value;
    assert ds[0] >= 2 by {
      assert Digit58(bc[0]) == Some(ds[0]);
    }
    Base58Powers();
    var p := Pow(58, 34);
    assert Positional(ds, 58) >= ds[0] * p;
    MulMonotone(2, ds[0], p);
  }

  // validate_result

  /** `d[:4]`: at most the first four bytes. */
  function Prefix4(d: seq<Byte>): (r: seq<Byte>)
    ensures |r| == if |d| < 4 then |d| else 4
    ensures r <= d
  {
    if |d| < 4 then d else d[..4]
  }

  /**
   * `validate_result(text, result)` with `sha256` the digest function: the
   * score becomes 1.0 when bytes 21..24 of the 25-byte decoding equal the
   * first four bytes of `sha256(sha256(bytes 0..20))`, and is otherwise left
   * as it was; decoding errors propagate with the score untouched. Only the
   * score changes and the same object is returned.
   */
  method ValidateResult(text: string, result: RecognizerResult, sha256: seq<Byte> -> seq<Byte>)
    returns (v: Validation)
    modifies result`score
    ensures Base58Decode(text, 25).Err? ==>
      v == Raised(Base58Decode(text, 25).error) && result.score == old(result.score)
    ensures Base58Decode(text, 25).Ok? ==>
      var b := Base58Decode(text, 25).value;
      && |b| == 25
      && v == Returned(result)
      && result.score == (if b[21..] == Prefix4(sha256(sha256(b[..21]))) then 1.0 else old(result.score))
    ensures old(result.score) <= 1.0 ==> result.score >= old(result.score)
  {
    var decoded := DecodeBase58(text, 25);
    if decoded.Err? {
      return Raised(decoded.error);
    }
    var bcbytes := decoded.value;
    var cut := |bcbytes| - 4;
    if bcbytes[cut..] == Prefix4(sha256(sha256(bcbytes[..cut]))) {
      result.score := 1.0;
    }
    return Returned(result);
  }
}
