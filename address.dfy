/**
 The address generator of the temporary-mail server: a random base-36 token, the
 decimal rendering of the current time in milliseconds, and the fixed domain.
 Math.random() and Date.now() are not modelled; their results are parameters.
 */
module Address {

  /** The fixed domain every generated address lives in. */
  const TempDomain: string := "tempmail.dev"

  /** The part of an address from the '@' on. */
  const Suffix: string := "@" + TempDomain

  /** A JavaScript string index clamped into [0, len], as String.prototype.substring does. */
  function Clamp(x: int, len: nat): (r: nat)
    ensures r <= len
    ensures 0 <= x <= len ==> r == x
    ensures x < 0 ==> r == 0
    ensures len < x ==> r == len
  {
    if x < 0 then 0 else if x > len then len else x
  }

  /**
   String.prototype.substring(start, end): both indices are clamped into
   [0, |s|] and swapped when the first exceeds the second.
   */
  function JsSubstring(s: string, start: int, end: int): (r: string)
    ensures |r| <= |s|
    ensures 0 <= start <= end <= |s| ==> r == s[start..end]
    ensures 0 <= end <= start <= |s| ==> r == s[end..start]
    ensures 0 <= start <= |s| <= end ==> r == s[start..]
    ensures start <= 0 && |s| <= end ==> r == s
    ensures forall c :: c in r ==> c in s
  {
    var a, b := Clamp(start, |s|), Clamp(end, |s|);
    if a <= b then s[a..b] else s[b..a]
  }

  /** The character of a decimal digit. */
  function DigitChar(d: nat): (c: char)
    requires d < 10
    ensures '0' <= c <= '9'
    ensures c as int - '0' as int == d
  {
    ('0' as int + d) as char
  }

  /** The value of a decimal digit character (0 for any other character). */
  function DigitValue(c: char): (d: nat)
    ensures d < 10
  {
    if '0' <= c <= '9' then c as int - '0' as int else 0
  }

  /** Number.prototype.toString() of a non-negative integer: its decimal digits, no leading zero. */
  function Decimal(n: nat): (r: string)
    ensures |r| >= 1
    ensures forall k :: 0 <= k < |r| ==> '0' <= r[k] <= '9'
    ensures r[0] == '0' ==> n == 0
    decreases n
  {
    if n < 10 then [DigitChar(n)] else Decimal(n / 10) + [DigitChar(n % 10)]
  }

  /** The number a string of decimal digits denotes, most significant digit first. */
  function ParseDecimal(s: string): nat
  {
    if s == [] then 0 else ParseDecimal(s[..|s| - 1]) * 10 + DigitValue(s[|s| - 1])
  }

  /** Decimal loses nothing: the digits it writes read back as the same number. */
  lemma {:induction false} DecimalRoundTrip(n: nat)
    ensures ParseDecimal(Decimal(n)) == n
    decreases n
  {
    if n >= 10 {
      var d := Decimal(n / 10);
      assert (d + [DigitChar(n % 10)])[..|d|] == d;
      DecimalRoundTrip(n / 10);
    }
  }

  /** Two instants render as the same digits only if they are the same instant. */
  lemma DecimalInjective(m: nat, n: nat)
    requires Decimal(m) == Decimal(n)
    ensures m == n
  {
    DecimalRoundTrip(m);
    DecimalRoundTrip(n);
  }

  /** The random part of the local part: characters 2 to 11 of Math.random().toString(36). */
  function Token(randomText: string): (r: string)
    ensures |r| <= 10
    ensures 12 <= |randomText| ==> r == randomText[2..12]
    ensures 2 <= |randomText| <= 12 ==> r == randomText[2..]
    ensures |randomText| <= 2 ==> r == []
    ensures forall c :: c in r ==> c in randomText
  {
    JsSubstring(randomText, 2, 12)
  }

  /**
   generateRandomEmail. The time part is Decimal(now).substring(-4); the negative
   start clamps to 0, so the whole timestamp is kept.
   */
  function GenerateAddress(randomText: string, now: nat): (r: string)
    ensures r == Token(randomText) + Decimal(now) + Suffix
    ensures |r| > |Suffix| && r[|r| - |Suffix|..] == Suffix
    ensures |r[..|r| - |Suffix|]| >= 1
    ensures '@' !in randomText ==> forall k :: 0 <= k < |r| - |Suffix| ==> r[k] != '@'
  {
    var timestamp := Decimal(now);
    var r := Token(randomText) + JsSubstring(timestamp, -4, |timestamp|) + Suffix;
    assert r[..|r| - |Suffix|] == Token(randomText) + timestamp;
    r
  }

  /**
   With the token's length known (ten characters whenever the random text is long
   enough), an address determines the instant it was generated at.
   */
  lemma {:induction false} AddressDeterminesInstant(randomText1: string, now1: nat, randomText2: string, now2: nat)
    requires |Token(randomText1)| == |Token(randomText2)|
    requires GenerateAddress(randomText1, now1) == GenerateAddress(randomText2, now2)
    ensures Token(randomText1) == Token(randomText2) && now1 == now2
  {
    var a1, a2 := GenerateAddress(randomText1, now1), GenerateAddress(randomText2, now2);
    var t1, t2 := Token(randomText1), Token(randomText2);
    var d1, d2 := Decimal(now1), Decimal(now2);
    assert a1[..|t1|] == t1 && a2[..|t2|] == t2;
    assert a1[|t1|..|a1| - |Suffix|] == d1;
    assert a2[|t2|..|a2| - |Suffix|] == d2;
    DecimalInjective(now1, now2);
  }
}
