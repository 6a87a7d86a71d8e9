/**
 * The two pieces of Ruby's core library the models rely on:
 * `String#strip` (used to filter blank tags) and `Integer#to_s`
 * (used to turn a user id into a Redis key and into a set member).
 */
module RubyText {

  /** The characters `String#strip` removes: null, horizontal tab, line feed,
      vertical tab, form feed, carriage return and space (ASCII only). */
  predicate IsStripSpace(c: char) {
    c == '\0' || c == '\t' || c == '\n' || c == '\U{B}' || c == '\U{C}' || c == '\r' || c == ' '
  }

  /** `String#lstrip`: drops the leading strip characters. */
  function LStrip(s: string): (r: string)
    ensures |r| <= |s|
    decreases |s|
  {
    if s != [] && IsStripSpace(s[0]) then LStrip(s[1..]) else s
  }

  /** What `lstrip` leaves is a suffix that does not start with a strip
      character, and all it drops are strip characters. */
  lemma {:induction false} LStripSpec(s: string)
    ensures LStrip(s) == s[|s| - |LStrip(s)|..]
    ensures forall i :: 0 <= i < |s| - |LStrip(s)| ==> IsStripSpace(s[i])
    ensures LStrip(s) == [] || !IsStripSpace(LStrip(s)[0])
    decreases |s|
  {
    if s != [] && IsStripSpace(s[0]) {
      LStripSpec(s[1..]);
    }
  }

  /** `String#rstrip`: drops the trailing strip characters. */
  function RStrip(s: string): (r: string)
    ensures |r| <= |s|
    decreases |s|
  {
    if s != [] && IsStripSpace(s[|s| - 1]) then RStrip(s[..|s| - 1]) else s
  }

  /** What `rstrip` leaves is a prefix that does not end with a strip
      character, and all it drops are strip characters. */
  lemma {:induction false} RStripSpec(s: string)
    ensures RStrip(s) == s[..|RStrip(s)|]
    ensures forall i :: |RStrip(s)| <= i < |s| ==> IsStripSpace(s[i])
    ensures RStrip(s) == [] || !IsStripSpace(RStrip(s)[|RStrip(s)| - 1])
    decreases |s|
  {
    if s != [] && IsStripSpace(s[|s| - 1]) {
      RStripSpec(s[..|s| - 1]);
    }
  }

  /** `String#strip` */
  function Strip(s: string): string {
    RStrip(LStrip(s))
  }

  /** `s.strip.empty?` */
  predicate IsBlank(s: string) {
    Strip(s) == []
  }

  /** A string strips to nothing exactly when every character is a strip character. */
  lemma BlankIff(s: string)
    ensures IsBlank(s) <==> forall i :: 0 <= i < |s| ==> IsStripSpace(s[i])
  {
    var l := LStrip(s);
    LStripSpec(s);
    RStripSpec(l);
  }

  /** The character of a decimal digit. */
  function DigitChar(d: nat): (c: char)
    requires d < 10
    ensures '0' <= c <= '9'
  {
    (48 + d) as char
  }

  /** `Integer#to_s` on a non-negative integer: its decimal digits, most significant first. */
  function IntToS(n: nat): (r: string)
    ensures |r| >= 1 && (|r| == 1 <==> n < 10)
    ensures forall i :: 0 <= i < |r| ==> '0' <= r[i] <= '9'
    ensures r[0] == '0' ==> n == 0
  {
    if n < 10 then [DigitChar(n)] else IntToS(n / 10) + [DigitChar(n % 10)]
  }

  /** The value of a string of decimal digits (`String#to_i` on such a string). */
  function ParseDecimal(s: string): nat
    decreases |s|
  {
    if s == [] then 0
    else ParseDecimal(s[..|s| - 1]) * 10 + (if '0' <= s[|s| - 1] <= '9' then s[|s| - 1] as int - 48 else 0)
  }

  /** Reading back the decimal digits gives the number: `n.to_s.to_i == n`. */
  lemma {:induction false} ParseIntToS(n: nat)
    ensures ParseDecimal(IntToS(n)) == n
  {
    if n >= 10 {
      var r := IntToS(n);
      assert r[..|r| - 1] == IntToS(n / 10);
      ParseIntToS(n / 10);
    }
  }

  /** Distinct ids have distinct decimal strings. */
  lemma IntToSInjective(a: nat, b: nat)
    ensures IntToS(a) == IntToS(b) ==> a == b
  {
    ParseIntToS(a);
    ParseIntToS(b);
  }
}
