/** What the ledger borrows from its JavaScript runtime: the SHA-256 digest,
    JSON serialisation of a block's data, the text of a number, and the two
    string operations the proof-of-work test is written with. The digest, the
    serialiser and the number conversion are runtime calls, carried as unknown
    total functions in a `Foreign` value; `Decimal` is the text the runtime
    gives an integer, for the lemmas that depend on it. */
module Primitives {

  /** A JSON-serialisable value: the shape of a block's `data`
      ("Genesis Block", `{ amount: 4 }`, ...). */
  datatype Json =
    | JNull
    | JBool(b: bool)
    | JNumber(n: int)
    | JString(s: string)
    | JArray(items: seq<Json>)
    | JObject(members: seq<(string, Json)>)

  /** The runtime functions a block hash is built from:
      `SHA256(...).toString()`, `JSON.stringify`, and the conversion of a
      number to text that `+` performs when one operand is a string. */
  datatype Foreign = Foreign(
    sha256: string -> string,
    stringify: Json -> string,
    numberText: int -> string)

  /** An idealisation stated only where a lemma needs it: distinct inputs get
      distinct outputs. */
  ghost predicate Injective<T(!new), U>(g: T -> U) {
    forall x, y :: g(x) == g(y) ==> x == y
  }

  predicate IsDigit(c: char) {
    '0' <= c <= '9'
  }

  function DigitChar(d: nat): (c: char)
    requires d < 10
    ensures IsDigit(c) && c as int - '0' as int == d
  {
    (d + '0' as int) as char
  }

  /** The number a string of decimal digits denotes. */
  function DigitsValue(s: string): nat
    requires forall i :: 0 <= i < |s| ==> IsDigit(s[i])
  {
    if s == [] then 0
    else
      assert IsDigit(s[|s| - 1]);
      DigitsValue(s[..|s| - 1]) * 10 + (s[|s| - 1] as int - '0' as int)
  }

  /** The decimal text JavaScript gives a non-negative integer: digits only,
      and no leading zero. */
  function NatText(n: nat): (s: string)
    ensures |s| > 0 && forall i :: 0 <= i < |s| ==> IsDigit(s[i])
    ensures (s[0] == '0') == (n == 0)
  {
    if n < 10 then [DigitChar(n)] else NatText(n / 10) + [DigitChar(n % 10)]
  }

  /** Reading the decimal text of a number back gives the number, so
      distinct numbers have distinct texts. */
  lemma {:induction false} NatTextRoundTrip(n: nat)
    ensures DigitsValue(NatText(n)) == n
  {
    if n >= 10 {
      var prefix := NatText(n / 10);
      var s := NatText(n);
      assert s == prefix + [DigitChar(n % 10)];
      assert s[..|s| - 1] == prefix;
      NatTextRoundTrip(n / 10);
    }
  }

  /** The text an integer becomes when it is concatenated with a string
      (`this.index + this.previousHash`): the decimal digits, after a minus
      sign for a negative number. It always ends in a digit. */
  function Decimal(n: int): (s: string)
    ensures |s| > 0 && IsDigit(s[|s| - 1])
    ensures (s[0] == '-') == (n < 0)
  {
    if n < 0 then "-" + NatText(-n) else NatText(n)
  }

  /** The runtime turns integers into their decimal text. */
  ghost predicate DecimalNumbers(f: Foreign) {
    forall n :: f.numberText(n) == Decimal(n)
  }

  /** `Array(d + 1).join("0")`: the target the hash prefix is compared with. */
  function Zeros(d: nat): (z: string)
    ensures |z| == d && forall i :: 0 <= i < d ==> z[i] == '0'
  {
    if d == 0 then "" else Zeros(d - 1) + "0"
  }

  /** `s.substring(0, d)` for a non-negative `d`: an end past the string is
      clamped to its length. */
  function Prefix(s: string, d: nat): string {
    if d <= |s| then s[..d] else s
  }

  /** The exit test of the mining loop, written as the source writes it:
      the first `d` characters of the hash equal `d` zero characters. It
      holds exactly when the hash has at least `d` characters, all of them
      '0'. */
  function MeetsDifficulty(hash: string, d: nat): (ok: bool)
    ensures ok <==> |hash| >= d && forall i :: 0 <= i < d ==> hash[i] == '0'
  {
    var z := Zeros(d);
    assert |hash| >= d && (forall i :: 0 <= i < d ==> hash[i] == '0') ==> hash[..d] == z;
    Prefix(hash, d) == z
  }

  /** A harder target admits fewer hashes: every hash that meets difficulty
      `d + 1` meets `d`. */
  lemma MeetsDifficultyMonotone(hash: string, d: nat)
    requires MeetsDifficulty(hash, d + 1)
    ensures MeetsDifficulty(hash, d)
  {
  }

  /** Strings equal after a common prefix and a common suffix are removed
      were equal in the middle. */
  lemma CancelAround(a: string, x: string, y: string, c: string)
    requires a + x + c == a + y + c
    ensures x == y
  {
    var l := a + x + c;
    assert |x| == |y|;
    assert x == l[|a|..|a| + |x|];
    assert y == (a + y + c)[|a|..|a| + |y|];
  }
}
