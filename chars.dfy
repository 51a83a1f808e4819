/** Character classes and the few library string operations that the server (Python) and the
    client (JavaScript) rely on: whitespace sets, strip/trim, whitespace splitting, joining,
    suffix tests, per-character case folding, counting and decimal rendering of integers.

    Letter classification (Python's str.isalpha) and case folding (str.lower, toLowerCase,
    the case-insensitive regular-expression canonicalisation) are not defined here: the
    modules that need them take them as function-typed parameters. */
module Chars {

  /** Python's str.isspace() set, which str.split() and str.strip() use. */
  predicate IsPySpace(c: char)
  {
    c == '\t' || c == '\n' || c == '\U{000B}' || c == '\U{000C}' || c == '\r'
    || ('\U{001C}' <= c <= '\U{001F}') || c == ' ' || c == '\U{0085}' || c == '\U{00A0}'
    || c == '\U{1680}' || ('\U{2000}' <= c <= '\U{200A}') || c == '\U{2028}' || c == '\U{2029}'
    || c == '\U{202F}' || c == '\U{205F}' || c == '\U{3000}'
  }

  /** The characters String.prototype.trim() removes in JavaScript: the WhiteSpace and
      LineTerminator productions of ECMA-262 (section 12.2 and 12.3 of the 2023 edition). */
  predicate IsJsSpace(c: char)
  {
    c == '\t' || c == '\n' || c == '\U{000B}' || c == '\U{000C}' || c == '\r' || c == ' '
    || c == '\U{00A0}' || c == '\U{1680}' || ('\U{2000}' <= c <= '\U{200A}')
    || c == '\U{2028}' || c == '\U{2029}' || c == '\U{202F}' || c == '\U{205F}'
    || c == '\U{3000}' || c == '\U{FEFF}'
  }

  /** Every character of s is in the class sp (vacuously true of ""). */
  predicate IsBlank(s: string, sp: char -> bool)
  {
    forall i :: 0 <= i < |s| ==> sp(s[i])
  }

  /** s with its leading characters of class sp removed. */
  function TrimStart(s: string, sp: char -> bool): (r: string)
    ensures |r| <= |s| && r == s[|s| - |r|..]
    ensures r == [] || !sp(r[0])
    ensures forall i :: 0 <= i < |s| - |r| ==> sp(s[i])
    decreases |s|
  {
    if s != [] && sp(s[0]) then TrimStart(s[1..], sp) else s
  }

  /** s with its trailing characters of class sp removed. */
  function TrimEnd(s: string, sp: char -> bool): (r: string)
    ensures |r| <= |s| && r == s[..|r|]
    ensures r == [] || !sp(r[|r| - 1])
    ensures forall i :: |r| <= i < |s| ==> sp(s[i])
    decreases |s|
  {
    if s != [] && sp(s[|s| - 1]) then TrimEnd(s[..|s| - 1], sp) else s
  }

  /** Python's str.strip() (with sp = IsPySpace) and JavaScript's trim() (with sp = IsJsSpace). */
  function Trim(s: string, sp: char -> bool): (r: string)
    ensures |r| <= |s|
    ensures r == [] <==> IsBlank(s, sp)
    ensures r == [] || (!sp(r[0]) && !sp(r[|r| - 1]))
  {
    var t := TrimStart(s, sp);
    var r := TrimEnd(t, sp);
    assert r == [] ==> t == [];
    r
  }

  /** A text that neither starts nor ends with a character of class sp is its own trim. */
  lemma {:induction false} TrimIdentity(s: string, sp: char -> bool)
    requires s == [] || (!sp(s[0]) && !sp(s[|s| - 1]))
    ensures Trim(s, sp) == s
  {
    assert TrimStart(s, sp) == s;
  }

  /** Trimming twice is trimming once. */
  lemma TrimIdempotent(s: string, sp: char -> bool)
    ensures Trim(Trim(s, sp), sp) == Trim(s, sp)
  {
    TrimIdentity(Trim(s, sp), sp);
  }

  /** s ends with suffix (str.endswith / String.prototype.endsWith). */
  predicate EndsWith(s: string, suffix: string)
  {
    |suffix| <= |s| && s[|s| - |suffix|..] == suffix
  }

  /** Applies a per-character case fold to a whole string. */
  function FoldString(s: string, fold: char -> char): string
  {
    seq(|s|, i requires 0 <= i < |s| => fold(s[i]))
  }

  /** What the model assumes of a lower-casing fold (Python's str.lower on one character):
      it lowers ASCII capitals, leaves ASCII lower-case letters, digits, '.' and '/' alone,
      and maps no other character to '.'. */
  ghost predicate AsciiLowerFold(fold: char -> char)
  {
    && (forall c :: 'A' <= c <= 'Z' ==> fold(c) == (c as int + 32) as char)
    && (forall c :: ('a' <= c <= 'z' || '0' <= c <= '9' || c == '.') ==> fold(c) == c)
    && (forall c :: fold(c) == '.' ==> c == '.')
    && fold('/') == '/'
  }

  /** A fold that lowers ASCII capitals and leaves every other character alone. */
  function AsciiLower(c: char): char
  {
    if 'A' <= c <= 'Z' then (c as int + 32) as char else c
  }

  lemma AsciiLowerIsFold()
    ensures AsciiLowerFold(AsciiLower)
  {
  }

  /** The text after the last occurrence of sep (all of s when sep does not occur). */
  function AfterLast(s: string, sep: char): (r: string)
    ensures |r| <= |s| && r == s[|s| - |r|..]
    ensures sep !in r
    ensures |r| < |s| ==> s[|s| - |r| - 1] == sep
  {
    if s == [] then []
    else if s[|s| - 1] == sep then []
    else AfterLast(s[..|s| - 1], sep) + [s[|s| - 1]]
  }
  /** Without the separator, the text after its last occurrence is the whole text. */
  lemma AfterLastAbsent(s: string, sep: char)
    requires forall i :: 0 <= i < |s| ==> s[i] != sep
    ensures AfterLast(s, sep) == s
  {
    var r := AfterLast(s, sep);
    assert |r| == |s|;
  }


  /** The text after the last sep is whatever follows a sep and contains none. */
  lemma {:induction false} AfterLastOf(t: string, u: string, sep: char)
    requires sep !in u
    ensures AfterLast(t + [sep] + u, sep) == u
    decreases |u|
  {
    var s := t + [sep] + u;
    if u == [] {
      assert s[|s| - 1] == sep;
    } else {
      var u' := u[..|u| - 1];
      assert s[..|s| - 1] == t + [sep] + u';
      assert s[|s| - 1] == u[|u| - 1];
      AfterLastOf(t, u', sep);
      assert u == u' + [u[|u| - 1]];
    }
  }

  /** Number of characters of s in the class p (counted front to back, as a loop does). */
  function CountWhere(s: string, p: char -> bool): (n: nat)
    ensures n <= |s|
  {
    if s == [] then 0
    else CountWhere(s[..|s| - 1], p) + (if p(s[|s| - 1]) then 1 else 0)
  }

  /** Some character of s is in the class p. */
  predicate Any(s: string, p: char -> bool)
  {
    exists i :: 0 <= i < |s| && p(s[i])
  }

  lemma {:induction false} CountWherePositive(s: string, p: char -> bool)
    ensures CountWhere(s, p) > 0 <==> Any(s, p)
    decreases |s|
  {
    if s != [] {
      var init := s[..|s| - 1];
      CountWherePositive(init, p);
      if Any(init, p) {
        var i :| 0 <= i < |init| && p(init[i]);
        assert s[i] == init[i];
      }
      if Any(s, p) && !p(s[|s| - 1]) {
        var i :| 0 <= i < |s| && p(s[i]);
        assert init[i] == s[i];
      }
    }
  }

  /** Length of the longest prefix of s without Python whitespace. */
  function WordLength(s: string): (n: nat)
    ensures n <= |s|
    ensures forall i :: 0 <= i < n ==> !IsPySpace(s[i])
    ensures n < |s| ==> IsPySpace(s[n])
    decreases |s|
  {
    if s == [] || IsPySpace(s[0]) then 0 else 1 + WordLength(s[1..])
  }

  /** A non-empty run of non-whitespace characters: what str.split() yields. */
  predicate IsWord(w: string)
  {
    w != [] && forall i :: 0 <= i < |w| ==> !IsPySpace(w[i])
  }

  /** Python's str.split() with no argument: the maximal runs of non-whitespace, left to right. */
  function PySplit(s: string): (ws: seq<string>)
    ensures forall k :: 0 <= k < |ws| ==> IsWord(ws[k])
    decreases |s|
  {
    if s == [] then []
    else if IsPySpace(s[0]) then PySplit(s[1..])
    else
      var n := WordLength(s);
      [s[..n]] + PySplit(s[n..])
  }

  /** sep.join(parts). */
  function JoinWith(parts: seq<string>, sep: string): string
  {
    if parts == [] then []
    else if |parts| == 1 then parts[0]
    else parts[0] + sep + JoinWith(parts[1..], sep)
  }

  function DigitChar(d: nat): (c: char)
    requires d < 10
    ensures '0' <= c <= '9'
  {
    ('0' as int + d) as char
  }

  /** Decimal rendering of a natural number (str(int) in Python, `${n}` in JavaScript). */
  function NatToString(n: nat): (s: string)
    ensures s != []
    ensures forall i :: 0 <= i < |s| ==> '0' <= s[i] <= '9'
    decreases n
  {
    if n < 10 then [DigitChar(n)] else NatToString(n / 10) + [DigitChar(n % 10)]
  }

  /** Decimal rendering of an integer, with a leading '-' when it is negative. */
  function IntToString(n: int): (s: string)
    ensures s != [] && ('0' <= s[|s| - 1] <= '9')
  {
    if n < 0 then "-" + NatToString(-n) else NatToString(n)
  }
}
