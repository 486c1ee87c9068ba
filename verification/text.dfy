/**
 * Character and number formatting shared by the games: ASCII upper-casing,
 * decimal printing of naturals (`n.toString()`), two-digit padding
 * (`padStart(2, '0')`) and the `M:SS` clock used by both copies of `formatTime`.
 */
module Text {

  /** `toUpperCase` on one character (ASCII letters only). */
  function UpperChar(ch: char): (u: char)
    ensures 'a' <= ch <= 'z' ==> u == ch - 'a' + 'A'
    ensures !('a' <= ch <= 'z') ==> u == ch
  {
    if 'a' <= ch <= 'z' then (ch as int - 'a' as int + 'A' as int) as char else ch
  }

  /** `toUpperCase` on a string, character by character. */
  function Upper(s: string): (u: string)
    ensures |u| == |s|
    ensures forall i :: 0 <= i < |s| ==> u[i] == UpperChar(s[i])
  {
    seq(|s|, i requires 0 <= i < |s| => UpperChar(s[i]))
  }

  predicate IsDigit(ch: char) { '0' <= ch <= '9' }

  function DigitChar(d: nat): (ch: char)
    requires d < 10
    ensures IsDigit(ch)
  {
    ('0' as int + d) as char
  }

  /** The value of a string of decimal digits; the inverse of `NatToString`. */
  function DecimalValue(s: string): nat
    requires forall i :: 0 <= i < |s| ==> IsDigit(s[i])
  {
    if s == [] then 0
    else
      assert IsDigit(s[|s| - 1]);
      DecimalValue(s[..|s| - 1]) * 10 + (s[|s| - 1] as int - '0' as int)
  }

  /** `n.toString()` for a natural number. */
  function NatToString(n: nat): (s: string)
    ensures |s| >= 1
    ensures forall i :: 0 <= i < |s| ==> IsDigit(s[i])
  {
    if n < 10 then [DigitChar(n)] else NatToString(n / 10) + [DigitChar(n % 10)]
  }

  /** Printing a natural number and reading it back gives the number. */
  lemma {:induction false} NatToStringRoundTrip(n: nat)
    ensures DecimalValue(NatToString(n)) == n
  {
    var s := NatToString(n);
    if n >= 10 {
      NatToStringRoundTrip(n / 10);
      assert s[..|s| - 1] == NatToString(n / 10);
    }
  }

  /** A printed number has no leading zero unless it is 0 itself. */
  lemma {:induction false} NatToStringNoLeadingZero(n: nat)
    ensures NatToString(n)[0] == '0' <==> n == 0
  {
    if n >= 10 {
      NatToStringNoLeadingZero(n / 10);
    }
  }

  /** `n.toString().padStart(2, '0')`. */
  function PadTwo(n: nat): (s: string)
    ensures n < 10 ==> s == ['0'] + NatToString(n)
    ensures n >= 10 ==> s == NatToString(n)
  {
    var d := NatToString(n);
    if |d| < 2 then ['0'] + d else d
  }

  /**
   * `M:SS` for a non-negative number of milliseconds: whole seconds are
   * `ms / 1000` (floor), minutes `seconds / 60`, and the seconds part is
   * `seconds % 60` padded to two digits.
   */
  function FormatTime(ms: nat): (s: string)
  {
    var seconds := ms / 1000;
    NatToString(seconds / 60) + [':'] + PadTwo(seconds % 60)
  }

  /** A number below 100 pads to exactly two digits that read back as the number. */
  lemma PadTwoShape(t: nat)
    requires t < 100
    ensures |PadTwo(t)| == 2 && IsDigit(PadTwo(t)[0]) && IsDigit(PadTwo(t)[1])
    ensures DecimalValue(PadTwo(t)) == t
  {
    var p := PadTwo(t);
    if t < 10 {
      assert p == ['0', DigitChar(t)];
      assert p[..1] == ['0'] && ['0'][..0] == [];
      assert DecimalValue(['0']) == 0;
    } else {
      assert NatToString(t / 10) == [DigitChar(t / 10)];
      assert p == NatToString(t / 10) + [DigitChar(t % 10)];
      NatToStringRoundTrip(t);
    }
  }

  /**
   * What `FormatTime` promises: the last three characters are a colon and two
   * digits whose value is the seconds within the minute, and everything before
   * the colon is the decimal number of whole minutes.
   */
  lemma FormatTimeShape(ms: nat)
    ensures var s := FormatTime(ms);
      && |s| >= 4
      && s[|s| - 3] == ':'
      && IsDigit(s[|s| - 2]) && IsDigit(s[|s| - 1])
      && DecimalValue(s[|s| - 2..]) == (ms / 1000) % 60
      && (forall i :: 0 <= i < |s| - 3 ==> IsDigit(s[i]))
      && DecimalValue(s[..|s| - 3]) == ms / 1000 / 60
  {
    var seconds := ms / 1000;
    var m := NatToString(seconds / 60);
    var p := PadTwo(seconds % 60);
    var s := FormatTime(ms);
    assert s == m + [':'] + p;
    NatToStringRoundTrip(seconds / 60);
    PadTwoShape(seconds % 60);
    assert s[..|s| - 3] == m;
    assert s[|s| - 2..] == p;
  }
}
