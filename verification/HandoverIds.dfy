/**
  Routing tokens in decimal and the object paths made from them.
 */
module HandoverIds {
  import opened Wrappers

  const PREFIX := "/org/deepin/RemoteDesktop/Rdp/Handovers/"

  const MAX_TOKEN: nat := 0xFFFF_FFFF

  function Digit(d: nat): char
    requires d < 10
  {
    ['0', '1', '2', '3', '4', '5', '6', '7', '8', '9'][d]
  }

  predicate IsDigit(c: char) {
    '0' <= c <= '9'
  }

  function DigitValue(c: char): nat
    requires IsDigit(c)
  {
    c as int - '0' as int
  }

  /** The "%u" form: no sign, no leading zero. */
  function Print(n: nat): (s: string)
    ensures s != "" && forall c | c in s :: IsDigit(c)
  {
    if n < 10 then [Digit(n)] else Print(n / 10) + [Digit(n % 10)]
  }

  function ValueOf(s: string): nat
    requires forall c | c in s :: IsDigit(c)
  {
    if s == "" then 0 else
      assert s[|s| - 1] in s;
      10 * ValueOf(s[..|s| - 1]) + DigitValue(s[|s| - 1])
  }

  /** An unsigned decimal between 1 and the largest 32-bit value; no sign and no blanks, leading zeros allowed. */
  function Parse(s: string): Option<nat> {
    if s == "" || exists c | c in s :: !IsDigit(c) then None
    else if 1 <= ValueOf(s) <= MAX_TOKEN then Some(ValueOf(s))
    else None
  }

  function IdOf(token: nat): string {
    PREFIX + Print(token)
  }

  /** The part of an object path after the handover prefix. */
  function TokenOfId(id: string): Option<string> {
    if |id| <= |PREFIX| || id[..|PREFIX|] != PREFIX then None else Some(id[|PREFIX|..])
  }

  lemma {:induction false} ValueOfPrint(n: nat)
    ensures ValueOf(Print(n)) == n
  {
    if n >= 10 {
      ValueOfPrint(n / 10);
      var s := Print(n / 10) + [Digit(n % 10)];
      assert s[..|s| - 1] == Print(n / 10);
    }
  }

  /** Printing a token into an object path and reading it back gives the token; distinct tokens get distinct paths. */
  lemma TokenRoundTrip(token: nat)
    requires 1 <= token <= MAX_TOKEN
    ensures TokenOfId(IdOf(token)) == Some(Print(token))
    ensures Parse(Print(token)) == Some(token)
    ensures forall other | IdOf(other) == IdOf(token) :: other == token
  {
    ValueOfPrint(token);
    assert IdOf(token)[..|PREFIX|] == PREFIX && IdOf(token)[|PREFIX|..] == Print(token);
    forall other | IdOf(other) == IdOf(token) ensures other == token {
      ValueOfPrint(other);
      assert IdOf(other)[|PREFIX|..] == Print(other);
    }
  }

  lemma {:induction false} LeadingZero(digits: string)
    requires forall c | c in digits :: IsDigit(c)
    ensures forall c | c in "0" + digits :: IsDigit(c)
    ensures ValueOf("0" + digits) == ValueOf(digits)
    decreases |digits|
  {
    if digits != "" {
      var n := |digits| - 1;
      assert digits[n] in digits;
      LeadingZero(digits[..n]);
      assert ("0" + digits)[..n + 1] == "0" + digits[..n];
    }
  }

  /** Two valid texts lead to the same object path exactly when they have the same value, as "007" and "7" do. */
  lemma ParsedTokenPath(text: string, other: string)
    requires Parse(text).Some? && Parse(other).Some?
    ensures IdOf(Parse(text).value) == IdOf(Parse(other).value) <==> ValueOf(text) == ValueOf(other)
    ensures Parse(Print(Parse(text).value)) == Parse(text)
    ensures Parse("0" + text) == Parse(text)
  {
    TokenRoundTrip(Parse(text).value);
    LeadingZero(text);
  }

  /** The tokens that can be printed and read back are the non-zero 32-bit numbers. */
  lemma TokenRange(n: nat)
    ensures Parse(Print(n)).Some? <==> 1 <= n <= 4294967295
  {
    ValueOfPrint(n);
  }

  /** The path of a token, in full. */
  lemma PathInFull(n: nat)
    ensures IdOf(n) == "/org/deepin/RemoteDesktop/Rdp/Handovers" + "/" + Print(n)
    ensures Print(7) == "7" && Print(4096) == "4096"
  {
    assert PREFIX == "/org/deepin/RemoteDesktop/Rdp/Handovers" + "/";
    assert Print(4) == "4" && Print(40) == "40" && Print(409) == "409";
  }

  /** Anything but digits is no token: no sign, no blank, not even nothing at all. */
  lemma OnlyDigits(s: string)
    ensures s == "" || (exists c | c in s :: !('0' <= c <= '9')) ==> Parse(s).None?
  {}
}
