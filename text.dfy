/** String helpers with the meaning Python gives them: `in`, `str.split(sep, 1)`,
    `str.join`, `str.replace` of one character, `str.lower` on Latin-1, and `int(s)`
    on decimal text. */
module Text {
  import opened Base

  /** `sep` occurs in `s` at index `k`. */
  predicate OccursAt(sep: string, s: string, k: nat) {
    k + |sep| <= |s| && s[k..k + |sep|] == sep
  }

  /** `y` occurs in `x + y + z` just after `x`. */
  lemma OccursAfter(x: string, y: string, z: string, s: string)
    requires s == x + y + z
    ensures OccursAt(y, s, |x|)
  {
    assert s[|x|..|x| + |y|] == y;
  }

  /** Python's `sep in s`. */
  predicate Contains(s: string, sep: string) {
    exists k: nat :: k <= |s| && OccursAt(sep, s, k)
  }

  /** The first index at or after `k` where `sep` occurs in `s`. */
  function FindFrom(s: string, sep: string, k: nat): (r: Option<nat>)
    requires k <= |s|
    decreases |s| - k
    ensures r.Some? ==> k <= r.value <= |s| && OccursAt(sep, s, r.value)
    ensures forall j: nat :: k <= j <= |s| && (r.None? || j < r.value) ==> !OccursAt(sep, s, j)
  {
    if OccursAt(sep, s, k) then Some(k)
    else if k == |s| then None
    else FindFrom(s, sep, k + 1)
  }

  /** Python's `s.split(sep, 1)`: the whole text when `sep` does not occur,
      otherwise the text before and after its first occurrence. */
  function SplitOnce(s: string, sep: string): (parts: seq<string>)
    requires |sep| > 0
    ensures |parts| == 1 || |parts| == 2
    ensures |parts| == 1 <==> !Contains(s, sep)
    ensures |parts| == 1 ==> parts[0] == s
    ensures |parts| == 2 ==> s == parts[0] + sep + parts[1]
    ensures |parts| == 2 ==> forall j: nat :: j < |parts[0]| ==> !OccursAt(sep, s, j)
  {
    match FindFrom(s, sep, 0)
    case None => [s]
    case Some(k) =>
      assert s == s[..k] + sep + s[k + |sep|..];
      [s[..k], s[k + |sep|..]]
  }

  /** Python's `sep.join(parts)`. */
  function Join(sep: string, parts: seq<string>): string {
    if |parts| == 0 then ""
    else if |parts| == 1 then parts[0]
    else Join(sep, parts[..|parts| - 1]) + sep + parts[|parts| - 1]
  }

  /** Python's `s.replace(c, repl)` for a one-character `c`. */
  function ReplaceChar(s: string, c: char, repl: string): string {
    if |s| == 0 then ""
    else (if s[0] == c then repl else [s[0]]) + ReplaceChar(s[1..], c, repl)
  }

  /** Python's `str.lower` on one character of the Basic Latin and Latin-1
      Supplement blocks: `A`-`Z` and `\u00C0`-`\u00DE` except `\u00D7` move 32
      code points up; every other character is kept. */
  function Lower(c: char): char {
    if 'A' <= c <= 'Z' || ('\U{00C0}' <= c <= '\U{00DE}' && c != '\U{00D7}') then (c as int + 32) as char else c
  }

  function LowerStr(s: string): (r: string)
    ensures |r| == |s| && forall i :: 0 <= i < |s| ==> r[i] == Lower(s[i])
  {
    seq(|s|, i requires 0 <= i < |s| => Lower(s[i]))
  }

  /** Lowering twice is lowering once. */
  lemma LowerIdempotent(s: string)
    ensures LowerStr(LowerStr(s)) == LowerStr(s)
  {
    assert forall i :: 0 <= i < |s| ==> LowerStr(LowerStr(s))[i] == LowerStr(s)[i];
  }

  predicate IsAscii(s: string) {
    forall i :: 0 <= i < |s| ==> s[i] < '\U{0080}'
  }

  /** The characters Python 2's `str.strip()` removes. */
  predicate IsSpace(c: char) {
    c == ' ' || c == '\t' || c == '\n' || c == '\r' || c == '\U{000B}' || c == '\U{000C}'
  }

  function StripLeft(s: string): string {
    if |s| > 0 && IsSpace(s[0]) then StripLeft(s[1..]) else s
  }

  function StripRight(s: string): string {
    if |s| > 0 && IsSpace(s[|s| - 1]) then StripRight(s[..|s| - 1]) else s
  }

  predicate IsDigit(c: char) {
    '0' <= c <= '9'
  }

  predicate AllDigits(s: string) {
    forall i :: 0 <= i < |s| ==> IsDigit(s[i])
  }

  function DigitsValue(s: string): nat
    requires AllDigits(s)
  {
    if |s| == 0 then 0 else DigitsValue(s[..|s| - 1]) * 10 + (s[|s| - 1] as int - '0' as int)
  }

  /** Python 2's `int(s)` on a string of ASCII characters: surrounding white
      space, an optional sign, more white space, and at least one ASCII digit;
      `None` where Python raises ValueError. */
  function ParseInt(s: string): Option<int> {
    var t := StripRight(StripLeft(s));
    var digits := if |t| > 0 && (t[0] == '-' || t[0] == '+') then StripLeft(t[1..]) else t;
    if |digits| > 0 && AllDigits(digits) then
      var v: int := DigitsValue(digits);
      Some(if t[0] == '-' then -v else v)
    else None
  }

  /** Decimal rendering of a natural number, without leading zeros. */
  function NatToString(n: nat): string {
    if n < 10 then [('0' as int + n) as char]
    else NatToString(n / 10) + [('0' as int + n % 10) as char]
  }

  /** Python's `str(n)` for an integer. */
  function IntToString(n: int): string {
    if n < 0 then "-" + NatToString(-n) else NatToString(n)
  }

  lemma {:induction false} NatToStringDigits(n: nat)
    ensures |NatToString(n)| > 0 && AllDigits(NatToString(n))
    ensures DigitsValue(NatToString(n)) == n
  {
    if n >= 10 {
      NatToStringDigits(n / 10);
      var s := NatToString(n);
      assert s[..|s| - 1] == NatToString(n / 10);
    }
  }

  /** `int(str(n)) == n`: the parser reads back every rendered integer. */
  lemma ParseIntRoundTrip(n: int)
    ensures ParseInt(IntToString(n)) == Some(n)
  {
    var m := if n < 0 then -n else n;
    NatToStringDigits(m);
    var s := IntToString(n);
    assert !IsSpace(s[0]) && !IsSpace(s[|s| - 1]);
    assert StripRight(StripLeft(s)) == s;
    if n < 0 {
      assert s[1..] == NatToString(m);
      assert StripLeft(s[1..]) == s[1..];
    }
  }

  /** `int()` skips leading white space, reads an explicit `+` and skips white
      space after a sign; it rejects the empty text, a lone sign and a
      decimal point. */
  lemma ParseIntEdges(s: string, n: nat)
    ensures ParseInt(" " + s) == ParseInt(s)
    ensures ParseInt("+" + NatToString(n)) == Some(n)
    ensures ParseInt("- " + NatToString(n)) == Some(-(n as int))
    ensures ParseInt("") == None && ParseInt("-") == None && ParseInt("1.5") == None
  {
    LeadingSpace(s);
    PlusDigits(n);
    MinusSpaceDigits(n);
    ParseIntRejects();
  }

  /** One leading space does not change what `int()` reads. */
  lemma LeadingSpace(s: string)
    ensures ParseInt(" " + s) == ParseInt(s)
  {
    assert StripLeft(" " + s) == StripLeft(s) by {
      assert (" " + s)[1..] == s;
    }
  }

  /** The empty text, a lone `-` and `1.5` are not integers. */
  lemma ParseIntRejects()
    ensures ParseInt("") == None && ParseInt("-") == None && ParseInt("1.5") == None
  {
    assert StripRight(StripLeft("-")) == "-";
    assert StripLeft("") == "";
    StripUnspaced("1.5");
    assert !IsDigit("1.5"[1]);
  }

  /** A `+` followed by the digits of `n` reads as `n`. */
  lemma PlusDigits(n: nat)
    ensures ParseInt("+" + NatToString(n)) == Some(n)
  {
    NatToStringDigits(n);
    var d := NatToString(n);
    var t := "+" + d;
    assert t[|t| - 1] == d[|d| - 1];
    StripUnspaced(t);
    assert t[1..] == d;
    assert StripLeft(d) == d by { assert !IsSpace(d[0]); }
  }

  /** A `-`, a space and the digits of `n` read as `-n`. */
  lemma MinusSpaceDigits(n: nat)
    ensures ParseInt("- " + NatToString(n)) == Some(-(n as int))
  {
    NatToStringDigits(n);
    var d := NatToString(n);
    var u := "- " + d;
    assert u[|u| - 1] == d[|d| - 1];
    StripUnspaced(u);
    assert u[1..] == " " + d;
    assert StripLeft(" " + d) == d by {
      assert (" " + d)[1..] == d;
      assert !IsSpace(d[0]);
    }
  }

  /** Text that neither starts nor ends in white space is its own strip. */
  lemma StripUnspaced(t: string)
    requires |t| > 0 && !IsSpace(t[0]) && !IsSpace(t[|t| - 1])
    ensures StripRight(StripLeft(t)) == t
  {
  }
}
