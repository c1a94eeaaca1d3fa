/** The record store's `LIKE ... ESCAPE '\'` operator, as the store applies it:
    `%` matches any run of characters, `_` exactly one character, the escape
    character makes the next character literal, and letters are compared
    without regard to ASCII case.  This is the reference against which the
    compiled substring clause is checked. */
module Like {
  import opened Base
  import opened Text

  datatype Token = AnyRun | AnyChar | Literal(c: char)

  /** The store's case folding: ASCII letters only. */
  function AsciiLower(c: char): char {
    if 'A' <= c <= 'Z' then (c as int + 32) as char else c
  }

  function AsciiLowerStr(s: string): (r: string)
    ensures |r| == |s| && forall i :: 0 <= i < |s| ==> r[i] == AsciiLower(s[i])
  {
    seq(|s|, i requires 0 <= i < |s| => AsciiLower(s[i]))
  }

  /** Reads a LIKE pattern with escape character `\`; `None` when the pattern
      ends in a lone escape character, which the store never matches. */
  function Tokenize(p: string): Option<seq<Token>>
    decreases |p|
  {
    if |p| == 0 then Some([])
    else if p[0] == '\\' then
      if |p| == 1 then None
      else match Tokenize(p[2..])
        case None => None
        case Some(t) => Some([Literal(p[1])] + t)
    else
      var head := if p[0] == '%' then AnyRun else if p[0] == '_' then AnyChar else Literal(p[0]);
      match Tokenize(p[1..])
      case None => None
      case Some(t) => Some([head] + t)
  }

  function TokensMatch(t: seq<Token>, s: string): bool
    decreases |t|, |s|
  {
    if |t| == 0 then |s| == 0
    else match t[0]
      case AnyRun => TokensMatch(t[1..], s) || (|s| > 0 && TokensMatch(t, s[1..]))
      case AnyChar => |s| > 0 && TokensMatch(t[1..], s[1..])
      case Literal(c) => |s| > 0 && AsciiLower(s[0]) == AsciiLower(c) && TokensMatch(t[1..], s[1..])
  }

  /** `s LIKE pattern ESCAPE '\'`. */
  predicate LikeMatch(pattern: string, s: string) {
    match Tokenize(pattern)
    case None => false
    case Some(t) => TokensMatch(t, s)
  }

  /** One character written so that LIKE reads it literally. */
  function EscapeChar(c: char): string {
    if c == '\\' then "\\\\" else if c == '%' then "\\%" else if c == '_' then "\\_" else [c]
  }

  function EscapeEach(p: string): string {
    if |p| == 0 then "" else EscapeChar(p[0]) + EscapeEach(p[1..])
  }

  function Literals(p: string): (t: seq<Token>)
    ensures |t| == |p| && forall i :: 0 <= i < |p| ==> t[i] == Literal(p[i])
  {
    seq(|p|, i requires 0 <= i < |p| => Literal(p[i]))
  }

  /** One escaped character reads back as that character, literally. */
  lemma TokenizeEscapedChar(c: char, tail: string, t: seq<Token>)
    requires Tokenize(tail) == Some(t)
    ensures Tokenize(EscapeChar(c) + tail) == Some([Literal(c)] + t)
  {
    var w := EscapeChar(c) + tail;
    if c == '\\' || c == '%' || c == '_' {
      assert w[0] == '\\' && w[1] == c && w[2..] == tail;
    } else {
      assert w[0] == c && w[1..] == tail;
    }
  }

  /** An escaped text reads back as the literal characters of the text. */
  lemma {:induction false} TokenizeEscaped(p: string, rest: string, t: seq<Token>)
    requires Tokenize(rest) == Some(t)
    ensures Tokenize(EscapeEach(p) + rest) == Some(Literals(p) + t)
  {
    if |p| > 0 {
      TokenizeEscaped(p[1..], rest, t);
      var tail := EscapeEach(p[1..]) + rest;
      TokenizeEscapedChar(p[0], tail, Literals(p[1..]) + t);
      assert EscapeEach(p) + rest == EscapeChar(p[0]) + tail;
      assert Literals(p) + t == [Literal(p[0])] + (Literals(p[1..]) + t);
    } else {
      assert EscapeEach(p) + rest == rest;
      assert Literals(p) + t == t;
    }
  }

  /** Literal tokens consume exactly their own characters, up to ASCII case. */
  lemma {:induction false} LiteralsMatch(p: string, t: seq<Token>, s: string)
    ensures TokensMatch(Literals(p) + t, s) ==
            (|p| <= |s| && AsciiLowerStr(s[..|p|]) == AsciiLowerStr(p) && TokensMatch(t, s[|p|..]))
  {
    if |p| == 0 {
      assert Literals(p) + t == t;
      assert s[|p|..] == s;
    } else if |s| == 0 {
    } else {
      var u := Literals(p) + t;
      assert u[0] == Literal(p[0]);
      assert u[1..] == Literals(p[1..]) + t;
      LiteralsMatch(p[1..], t, s[1..]);
      if |p| <= |s| {
        assert s[1..][|p| - 1..] == s[|p|..];
        var a, b := AsciiLowerStr(s[..|p|]), AsciiLowerStr(p);
        assert a == [AsciiLower(s[0])] + AsciiLowerStr(s[1..][..|p| - 1]);
        assert b == [AsciiLower(p[0])] + AsciiLowerStr(p[1..]);
      }
    }
  }

  /** A leading `%` lets the rest of the pattern start at any position. */
  lemma {:induction false} AnyRunMatch(t: seq<Token>, s: string)
    ensures TokensMatch([AnyRun] + t, s) == exists k: nat :: k <= |s| && TokensMatch(t, s[k..])
    decreases |s|
  {
    var u := [AnyRun] + t;
    assert u[0] == AnyRun && u[1..] == t;
    assert s[0..] == s;
    if |s| > 0 {
      AnyRunMatch(t, s[1..]);
      if TokensMatch(u, s[1..]) {
        var k: nat :| k <= |s[1..]| && TokensMatch(t, s[1..][k..]);
        assert s[1..][k..] == s[k + 1..];
      }
      if exists k: nat :: k <= |s| && TokensMatch(t, s[k..]) {
        var k: nat :| k <= |s| && TokensMatch(t, s[k..]);
        if k > 0 {
          assert s[1..][k - 1..] == s[k..];
        }
      }
    }
  }

  lemma {:induction false} AnyRunMatchesAll(s: string)
    ensures TokensMatch([AnyRun], s)
  {
    assert [AnyRun][1..] == [];
    if |s| > 0 {
      AnyRunMatchesAll(s[1..]);
    }
  }

  /** The search pattern of a substring query reads as `%`, the literal text, `%`. */
  lemma SearchTokens(p: string)
    ensures Tokenize("%" + EscapeEach(p) + "%") == Some([AnyRun] + (Literals(p) + [AnyRun]))
  {
    assert "%"[1..] == "" && [AnyRun] + [] == [AnyRun];
    assert Tokenize("%") == Some([AnyRun]);
    TokenizeEscaped(p, "%", [AnyRun]);
    var pat := "%" + EscapeEach(p) + "%";
    assert pat[0] == '%' && pat[1..] == EscapeEach(p) + "%";
  }

  lemma LikeSubstringSound(p: string, s: string, k: nat)
    requires k <= |s| && TokensMatch(Literals(p) + [AnyRun], s[k..])
    ensures OccursAt(AsciiLowerStr(p), AsciiLowerStr(s), k)
  {
    LiteralsMatch(p, [AnyRun], s[k..]);
    assert AsciiLowerStr(s)[k..k + |p|] == AsciiLowerStr(s[k..][..|p|]);
  }

  lemma LikeSubstringComplete(p: string, s: string, k: nat)
    requires OccursAt(AsciiLowerStr(p), AsciiLowerStr(s), k)
    ensures k <= |s| && TokensMatch(Literals(p) + [AnyRun], s[k..])
  {
    assert AsciiLowerStr(s)[k..k + |p|] == AsciiLowerStr(s[k..][..|p|]);
    LiteralsMatch(p, [AnyRun], s[k..]);
    AnyRunMatchesAll(s[k..][|p|..]);
  }

  /** `s LIKE '%' + escaped(p) + '%'` holds exactly when `p` occurs in `s`,
      both folded to lower case in ASCII only. */
  lemma LikeSubstring(p: string, s: string)
    ensures LikeMatch("%" + EscapeEach(p) + "%", s) <==> Contains(AsciiLowerStr(s), AsciiLowerStr(p))
  {
    SearchTokens(p);
    var inner := Literals(p) + [AnyRun];
    AnyRunMatch(inner, s);
    if LikeMatch("%" + EscapeEach(p) + "%", s) {
      var k: nat :| k <= |s| && TokensMatch(inner, s[k..]);
      LikeSubstringSound(p, s, k);
    }
    if Contains(AsciiLowerStr(s), AsciiLowerStr(p)) {
      var k: nat :| k <= |AsciiLowerStr(s)| && OccursAt(AsciiLowerStr(p), AsciiLowerStr(s), k);
      LikeSubstringComplete(p, s, k);
    }
  }
}
