/** The string operations the views and serializers rely on: str(int), int(str) on a digit
    string, str.isdigit, "\n".join and its inverse str.split("\n"). */
module Text {

  predicate IsDigit(c: char) {
    '0' <= c <= '9'
  }

  /** str.isdigit(), restricted to the ASCII digits: non-empty and every character a digit. */
  predicate IsDigits(s: string) {
    |s| > 0 && forall i :: 0 <= i < |s| ==> IsDigit(s[i])
  }

  function DigitValue(c: char): nat
    requires IsDigit(c)
  {
    c as int - '0' as int
  }

  function DigitChar(d: nat): (c: char)
    requires d < 10
    ensures IsDigit(c) && DigitValue(c) == d
  {
    ('0' as int + d) as char
  }

  /** int(s) for a string of decimal digits. */
  function ParseDigits(s: string): nat
    requires forall i :: 0 <= i < |s| ==> IsDigit(s[i])
    decreases |s|
  {
    if s == [] then 0 else 10 * ParseDigits(s[..|s| - 1]) + DigitValue(s[|s| - 1])
  }

  /** str(n) for a non-negative integer: decimal digits without leading zeros. */
  function NatToString(n: nat): (s: string)
    ensures IsDigits(s)
    ensures n > 0 ==> s[0] != '0'
    ensures n < 10 <==> |s| == 1
    decreases n
  {
    if n < 10 then [DigitChar(n)] else NatToString(n / 10) + [DigitChar(n % 10)]
  }

  /** str(i) for any integer, as Python formats it inside an f-string. */
  function IntToString(i: int): (s: string)
    ensures '\n' !in s
    ensures i >= 0 ==> IsDigits(s)
    ensures i < 0 ==> |s| > 1 && s[0] == '-' && IsDigits(s[1..])
  {
    if i < 0 then "-" + NatToString(-i) else NatToString(i)
  }

  /** Reading back what NatToString writes gives the number again. */
  lemma {:induction false} ParseNatToString(n: nat)
    ensures ParseDigits(NatToString(n)) == n
    decreases n
  {
    var s := NatToString(n);
    if n >= 10 {
      ParseNatToString(n / 10);
      assert s[..|s| - 1] == NatToString(n / 10);
    }
  }

  /** The digits IntToString writes denote the number: int(str(i)) == i, the sign included. */
  lemma ParseIntToString(i: int)
    ensures i >= 0 ==> ParseDigits(IntToString(i)) == i
    ensures i < 0 ==> ParseDigits(IntToString(i)[1..]) == -i
  {
    if i < 0 {
      ParseNatToString(-i);
      assert IntToString(i)[1..] == NatToString(-i);
    } else {
      ParseNatToString(i);
    }
  }

  /** "\n".join(lines). */
  function JoinLines(lines: seq<string>): string
    decreases |lines|
  {
    if lines == [] then ""
    else if |lines| == 1 then lines[0]
    else lines[0] + "\n" + JoinLines(lines[1..])
  }

  /** Position of the first newline of s, or |s| when there is none. */
  function IndexOfNewline(s: string): (i: nat)
    ensures i <= |s|
    ensures i < |s| ==> s[i] == '\n'
    ensures forall k :: 0 <= k < i ==> s[k] != '\n'
    decreases |s|
  {
    if s == [] || s[0] == '\n' then 0 else 1 + IndexOfNewline(s[1..])
  }

  /** s.split("\n"): the pieces between newlines; "" splits into [""]. */
  function SplitLines(s: string): (lines: seq<string>)
    ensures |lines| > 0
    decreases |s|
  {
    var i := IndexOfNewline(s);
    if i == |s| then [s] else [s[..i]] + SplitLines(s[i + 1..])
  }

  /** Splitting what JoinLines wrote gives the lines back, one for one and in order, provided
      there is at least one line and no line contains a newline of its own. So the joined text
      has exactly |lines| - 1 separators and no trailing newline. */
  lemma {:induction false} SplitJoinLines(lines: seq<string>)
    requires |lines| > 0
    requires forall l :: l in lines ==> '\n' !in l
    ensures SplitLines(JoinLines(lines)) == lines
    decreases |lines|
  {
    var head := lines[0];
    if |lines| == 1 {
      assert '\n' !in head;
    } else {
      var rest := JoinLines(lines[1..]);
      var s := head + "\n" + rest;
      var i := IndexOfNewline(s);
      assert s[|head|] == '\n';
      assert '\n' !in head;
      assert forall k :: 0 <= k < |head| ==> s[k] == head[k];
      assert i == |head|;
      assert s[..i] == head;
      assert s[i + 1..] == rest;
      forall l | l in lines[1..] ensures '\n' !in l {
        assert l in lines;
      }
      SplitJoinLines(lines[1..]);
      assert lines == [head] + lines[1..];
    }
  }
}
