/** The entity tags the blob store mints. Azure reports a blob's ETag as a
    quoted hexadecimal string such as "0x8D5B3A"; the model derives it from a
    per-container version counter, so a fresh version gives a fresh tag. */
module ETags {

  /** One upper-case hexadecimal digit. */
  function HexDigit(d: nat): (c: char)
    requires d < 16
    ensures '0' <= c <= '9' || 'A' <= c <= 'F'
  {
    if d < 10 then ('0' as int + d) as char else ('A' as int + d - 10) as char
  }

  /** The hexadecimal numeral of `n`, most significant digit first. */
  function Hex(n: nat): (s: string)
    ensures |s| >= 1
    decreases n
  {
    if n < 16 then [HexDigit(n)] else Hex(n / 16) + [HexDigit(n % 16)]
  }

  /** The ETag of the blob version `version`. */
  function Mint(version: nat): (t: string)
    ensures |t| >= 5 && t != "*"
  {
    "\"0x" + Hex(version) + "\""
  }

  lemma HexDigitInjective(a: nat, b: nat)
    requires a < 16 && b < 16 && HexDigit(a) == HexDigit(b)
    ensures a == b
  {
  }

  /** Distinct numbers have distinct numerals. */
  lemma {:induction false} HexInjective(a: nat, b: nat)
    requires Hex(a) == Hex(b)
    ensures a == b
    decreases a
  {
    var s := Hex(a);
    if a < 16 && b < 16 {
      HexDigitInjective(a, b);
    } else if a >= 16 && b >= 16 {
      assert Hex(a / 16) == s[..|s| - 1] == Hex(b / 16);
      assert HexDigit(a % 16) == s[|s| - 1] == HexDigit(b % 16);
      HexInjective(a / 16, b / 16);
      HexDigitInjective(a % 16, b % 16);
    }
  }

  /** Distinct versions have distinct ETags. */
  lemma MintInjective(a: nat, b: nat)
    requires Mint(a) == Mint(b)
    ensures a == b
  {
    var s := Mint(a);
    assert Hex(a) == s[3..|s| - 1] == Hex(b);
    HexInjective(a, b);
  }
}
