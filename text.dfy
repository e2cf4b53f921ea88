/** The few Python string operations the translator relies on:
    `str.split("\n")`, `"\n".join`, `str.strip()` used as a truth value,
    and the decimal rendering of a positive integer in an f-string. */
module Text {

  /** Python's `str.isspace()` for one character: the characters `str.strip()` removes. */
  predicate IsSpace(c: char)
    ensures c == ' ' || c == '\t' || c == '\n' || c == '\r' ==> IsSpace(c)
    ensures '0' <= c <= '9' || c == '.' ==> !IsSpace(c)
  {
    var n := c as int;
    (9 <= n <= 13) || (28 <= n <= 32) || n == 0x85 || n == 0xA0 || n == 0x1680
    || (0x2000 <= n <= 0x200A) || n == 0x2028 || n == 0x2029 || n == 0x202F
    || n == 0x205F || n == 0x3000
  }

  /** `not line.strip()`: the line is empty or holds only whitespace. */
  predicate IsBlank(line: string)
    ensures |line| == 0 ==> IsBlank(line)
    ensures |line| > 0 && IsDigit(line[0]) ==> !IsBlank(line)
  {
    forall i :: 0 <= i < |line| ==> IsSpace(line[i])
  }

  predicate NoNewline(s: string) {
    forall i :: 0 <= i < |s| ==> s[i] != '\n'
  }

  /** `"\n".join(lines)`: the first line comes first, followed by a newline
      when more lines follow. */
  function JoinLines(lines: seq<string>): (r: string)
    ensures |lines| == 0 ==> r == ""
    ensures |lines| > 0 ==> |lines[0]| <= |r| && r[..|lines[0]|] == lines[0]
    ensures |lines| > 1 ==> |lines[0]| < |r| && r[|lines[0]|] == '\n'
  {
    if |lines| == 0 then ""
    else if |lines| == 1 then lines[0]
    else lines[0] + "\n" + JoinLines(lines[1..])
  }

  /** `s.split("\n")`: the pieces between newlines; never empty, and
      joining the pieces back gives `s`. */
  function SplitLines(s: string): (r: seq<string>)
    ensures |r| >= 1
    ensures forall i :: 0 <= i < |r| ==> NoNewline(r[i])
    ensures JoinLines(r) == s
  {
    if |s| == 0 then [""]
    else
      var rest := SplitLines(s[1..]);
      if s[0] == '\n' then
        assert s == "\n" + s[1..];
        [""] + rest
      else
        assert s == [s[0]] + s[1..];
        assert JoinLines([[s[0]] + rest[0]] + rest[1..]) == [s[0]] + JoinLines(rest) by {
          if |rest| > 1 {
            assert ([[s[0]] + rest[0]] + rest[1..])[1..] == rest[1..];
          }
        }
        [[s[0]] + rest[0]] + rest[1..]
  }

  lemma {:induction false} SplitNoNewline(s: string)
    requires NoNewline(s)
    ensures SplitLines(s) == [s]
  {
    if |s| > 0 {
      SplitNoNewline(s[1..]);
    }
  }

  lemma {:induction false} SplitAtNewline(a: string, b: string)
    requires NoNewline(a)
    ensures SplitLines(a + "\n" + b) == [a] + SplitLines(b)
  {
    if |a| == 0 {
      assert a + "\n" + b == "\n" + b;
      assert ("\n" + b)[1..] == b;
    } else {
      var s := a + "\n" + b;
      assert s[0] == a[0] && s[1..] == a[1..] + "\n" + b;
      SplitAtNewline(a[1..], b);
      var rest := SplitLines(s[1..]);
      assert rest[0] == a[1..] && rest[1..] == SplitLines(b);
      assert [a[0]] + a[1..] == a;
    }
  }

  /** Splitting undoes joining, for a non-empty list of lines without newlines. */
  lemma {:induction false} SplitJoin(lines: seq<string>)
    requires |lines| >= 1
    requires forall i :: 0 <= i < |lines| ==> NoNewline(lines[i])
    ensures SplitLines(JoinLines(lines)) == lines
  {
    if |lines| == 1 {
      SplitNoNewline(lines[0]);
    } else {
      SplitJoin(lines[1..]);
      SplitAtNewline(lines[0], JoinLines(lines[1..]));
      assert [lines[0]] + lines[1..] == lines;
    }
  }

  predicate IsDigit(c: char) {
    '0' <= c <= '9'
  }

  function DigitChar(d: nat): (c: char)
    requires d < 10
    ensures IsDigit(c) && c as int - '0' as int == d
  {
    ('0' as int + d) as char
  }

  /** The number a run of decimal digits denotes, most significant digit first. */
  function DigitsValue(s: string): nat
    requires forall i :: 0 <= i < |s| ==> IsDigit(s[i])
  {
    if |s| == 0 then 0
    else
      assert IsDigit(s[|s| - 1]);
      DigitsValue(s[..|s| - 1]) * 10 + (s[|s| - 1] as int - '0' as int)
  }

  /** `f"{n}"` for a natural number: the decimal digits of n, most significant
      first, with no leading zero unless n is 0. */
  function Decimal(n: nat): (r: string)
    ensures |r| >= 1
    ensures forall i :: 0 <= i < |r| ==> IsDigit(r[i])
    ensures DigitsValue(r) == n
    ensures r[0] == '0' ==> r == "0"
    decreases n
  {
    if n < 10 then
      var r := [DigitChar(n)];
      assert r[..0] == [];
      r
    else
      var p := Decimal(n / 10);
      var r := p + [DigitChar(n % 10)];
      assert r[..|r| - 1] == p;
      assert r[0] == p[0];
      r
  }
}
