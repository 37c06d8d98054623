/**
 * Session keys: the server names a session's transcript and its character count by
 * `f"{session_id:03d}"`, the decimal id zero-filled to width three (a minus sign counts
 * towards the width). `ParseKey` reads a key back and is the inverse used to show that
 * distinct ids never share a key.
 */
module SessionKeys {

  function DigitChar(d: int): char
    requires 0 <= d < 10
  {
    ('0' as int + d) as char
  }

  function DigitValue(c: char): int {
    c as int - '0' as int
  }

  /** The decimal digits of `n`, most significant first, without leading zeros. */
  function Digits(n: nat): (r: string)
    ensures |r| >= 1 && forall i :: 0 <= i < |r| ==> '0' <= r[i] <= '9'
    ensures r[0] == '0' ==> n == 0
    ensures n < 10 ==> |r| == 1
    ensures n < 100 ==> |r| <= 2
    ensures n < 1000 ==> |r| <= 3
    decreases n
  {
    if n < 10 then [DigitChar(n)] else Digits(n / 10) + [DigitChar(n % 10)]
  }

  /** `k` zero characters (none when `k <= 0`). */
  function Zeros(k: int): (r: string)
    ensures |r| == if k <= 0 then 0 else k
    ensures forall i :: 0 <= i < |r| ==> r[i] == '0'
    decreases k
  {
    if k <= 0 then "" else "0" + Zeros(k - 1)
  }

  /** `f"{id:03d}"`: the sign, then zeros, then the digits, at least three characters in all. */
  function SessionKey(id: int): (key: string)
  {
    if id < 0 then "-" + Zeros(2 - |Digits(-id)|) + Digits(-id)
    else Zeros(3 - |Digits(id)|) + Digits(id)
  }

  /** The value of a string of decimal digits (leading zeros allowed; empty reads as 0). */
  function ParseDigits(s: string): int {
    if s == [] then 0 else ParseDigits(s[..|s| - 1]) * 10 + DigitValue(s[|s| - 1])
  }

  /** Reads a session key back as an integer: an optional minus sign, then digits. */
  function ParseKey(key: string): int {
    if key != [] && key[0] == '-' then -ParseDigits(key[1..]) else ParseDigits(key)
  }

  lemma {:induction false} ParseZeros(k: int)
    ensures ParseDigits(Zeros(k)) == 0
    decreases k
  {
    if k > 0 {
      var z := Zeros(k);
      assert z[..|z| - 1] == Zeros(k - 1);
      ParseZeros(k - 1);
    }
  }

  /** Leading zeros do not change the value of a digit string. */
  lemma {:induction false} ParseZeroFilled(k: int, n: nat)
    ensures ParseDigits(Zeros(k) + Digits(n)) == n
    decreases n
  {
    var s := Zeros(k) + Digits(n);
    if n < 10 {
      assert s[..|s| - 1] == Zeros(k);
      ParseZeros(k);
    } else {
      assert s[..|s| - 1] == Zeros(k) + Digits(n / 10);
      ParseZeroFilled(k, n / 10);
    }
  }

  /** A key with no minus sign in front is read as its digits. */
  lemma ParseUnsigned(key: string)
    requires key != [] && '0' <= key[0] <= '9'
    ensures ParseKey(key) == ParseDigits(key)
  {
  }

  /** A key with a minus sign in front is read as the negated value of the rest. */
  lemma ParseSigned(body: string)
    ensures ParseKey("-" + body) == -ParseDigits(body)
  {
    assert ("-" + body)[1..] == body;
  }

  lemma ParseNegative(n: nat, body: string)
    requires body == Zeros(2 - |Digits(n)|) + Digits(n)
    ensures ParseKey("-" + body) == -(n as int)
  {
    ParseSigned(body);
    ParseZeroFilled(2 - |Digits(n)|, n);
  }

  /** The key of a session determines its id: parsing a key gives back the id it was made from. */
  lemma KeyRoundTrip(id: int)
    ensures ParseKey(SessionKey(id)) == id
  {
    if id < 0 {
      var n: nat := -id;
      var body := Zeros(2 - |Digits(n)|) + Digits(n);
      assert SessionKey(id) == "-" + body;
      ParseNegative(n, body);
    } else {
      var z, d := Zeros(3 - |Digits(id)|), Digits(id);
      assert SessionKey(id) == z + d;
      assert (z + d)[0] == (if |z| > 0 then z[0] else d[0]);
      ParseUnsigned(z + d);
      ParseZeroFilled(3 - |Digits(id)|, id);
    }
  }

  /** Distinct session ids get distinct keys, so no two sessions share a transcript or a count. */
  lemma KeysDistinct(a: int, b: int)
    requires a != b
    ensures SessionKey(a) != SessionKey(b)
  {
    KeyRoundTrip(a);
    KeyRoundTrip(b);
  }

  /** Ids 0..999 give exactly three digits that read back as the id. */
  lemma KeyShapeSmall(id: int)
    requires 0 <= id < 1000
    ensures |SessionKey(id)| == 3 && ParseDigits(SessionKey(id)) == id
    ensures forall i :: 0 <= i < |SessionKey(id)| ==> '0' <= SessionKey(id)[i] <= '9'
  {
    ParseZeroFilled(3 - |Digits(id)|, id);
  }

  /** Ids of 1000 and more give their plain digits, without any zero fill. */
  lemma KeyShapeLarge(id: int)
    requires id >= 1000
    ensures SessionKey(id) == Digits(id)
  {
    assert Zeros(3 - |Digits(id)|) == "";
  }

  /**
   * Negative ids give a minus sign followed by digits only, zero-filled so that the key
   * is three characters long in all whenever the id has at most two digits.
   */
  lemma KeyShapeNegative(id: int)
    requires id < 0
    ensures |SessionKey(id)| >= 3 && SessionKey(id)[0] == '-'
    ensures forall i :: 1 <= i < |SessionKey(id)| ==> '0' <= SessionKey(id)[i] <= '9'
    ensures -100 < id ==> |SessionKey(id)| == 3
  {
    var z, d := Zeros(2 - |Digits(-id)|), Digits(-id);
    assert SessionKey(id) == "-" + (z + d);
    forall i | 1 <= i < |SessionKey(id)| ensures '0' <= SessionKey(id)[i] <= '9' {
      assert SessionKey(id)[i] == (z + d)[i - 1];
    }
  }
}
