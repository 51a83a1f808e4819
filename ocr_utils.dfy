/** Post-processing of OCR output in the OCR processor (server/models/ocr_utils.py):
    cleaning a recognised text (whitespace collapse, the Gujarati correction table, the final
    keep/drop filter), the Gujarati share test, the choice of the best OCR candidate and the
    assembly of per-page records for a scanned document.

    The recognisers themselves (Tesseract, EasyOCR) and the image pipeline are outside the
    model: their output strings are inputs. Python's str.isalpha is the parameter isAlpha. */
module OcrUtils {
  import opened Chars
  import opened StableSort

  // ---------------------------------------------------------------------------------------
  // The correction table

  /** The replacement table of clean_ocr_text, in its source order: each entry maps one
      character (an ASCII digit, '|', a Latin-1 symbol, the double danda) to a Gujarati or
      Devanagari character. */
  const Replacements: seq<(char, char)> := [
    ('|', '\U{0964}'), ('\U{0965}', '\U{0965}'), ('0', '\U{0AE6}'), ('1', '\U{0AE7}'),
    ('2', '\U{0AE8}'), ('3', '\U{0AE9}'), ('4', '\U{0AEA}'), ('5', '\U{0AEB}'),
    ('6', '\U{0AEC}'), ('7', '\U{0AED}'), ('8', '\U{0AEE}'), ('9', '\U{0AEF}'),
    ('\U{00A5}', '\U{0AAF}'), ('\U{00A2}', '\U{0A9A}'), ('\U{00A3}', '\U{0AB3}'), ('\U{00A7}', '\U{0AB8}'),
    ('\U{00A9}', '\U{0A97}'), ('\U{00AE}', '\U{0AB0}'), ('\U{00B0}', '\U{0AA6}'), ('\U{00B1}', '\U{0AAA}'),
    ('\U{00B2}', '\U{0AAC}'), ('\U{00B3}', '\U{0AAD}'), ('\U{00B4}', '\U{0AAE}'), ('\U{00B5}', '\U{0AA8}'),
    ('\U{00B6}', '\U{0AB5}'), ('\U{00B7}', '\U{0AB6}'), ('\U{00B8}', '\U{0AB7}'), ('\U{00B9}', '\U{0AB9}'),
    ('\U{00BA}', '\U{0A9C}'), ('\U{00BB}', '\U{0A9D}'), ('\U{00BC}', '\U{0A9E}'), ('\U{00BD}', '\U{0A9F}'),
    ('\U{00BE}', '\U{0AA0}'), ('\U{00BF}', '\U{0AA1}')
  ]

  /** A table that acts as a per-character map whatever order its entries are applied in:
      keys are distinct and no value is the key of another entry. */
  ghost predicate WellFormedTable(t: seq<(char, char)>)
  {
    forall i, j :: 0 <= i < |t| && 0 <= j < |t| && i != j ==> t[i].0 != t[j].0 && t[i].1 != t[j].0
  }

  /** The value of the first entry whose key is c, or c itself when no key is c. */
  function Lookup(t: seq<(char, char)>, c: char): (r: char)
    ensures (forall i :: 0 <= i < |t| ==> t[i].0 != c) ==> r == c
    ensures forall i :: 0 <= i < |t| && t[i].0 == c && (forall j :: 0 <= j < i ==> t[j].0 != c) ==> r == t[i].1
    decreases |t|
  {
    if t == [] then c
    else if t[0].0 == c then t[0].1
    else
      var r := Lookup(t[1..], c);
      assert forall i :: 1 <= i < |t| ==> t[i] == t[1..][i - 1];
      r
  }

  /** str.replace(a, b) for one-character a and b: every a becomes b. */
  function ReplaceChar(s: string, a: char, b: char): (r: string)
  {
    seq(|s|, k requires 0 <= k < |s| => if s[k] == a then b else s[k])
  }

  /** What the entries of t, applied one after the other as the replacement loop does, make
      of one character. */
  function Through(c: char, t: seq<(char, char)>): char
    decreases |t|
  {
    if t == [] then c
    else
      var d := Through(c, t[..|t| - 1]);
      if d == t[|t| - 1].0 then t[|t| - 1].1 else d
  }

  lemma {:induction false} LookupAppend(t: seq<(char, char)>, e: (char, char), c: char)
    ensures Lookup(t + [e], c)
         == if exists i :: 0 <= i < |t| && t[i].0 == c then Lookup(t, c)
            else if e.0 == c then e.1 else c
    decreases |t|
  {
    if t != [] {
      assert (t + [e])[1..] == t[1..] + [e];
      LookupAppend(t[1..], e, c);
      if t[0].0 != c {
        if exists i :: 0 <= i < |t| && t[i].0 == c {
          var i :| 0 <= i < |t| && t[i].0 == c;
          assert t[1..][i - 1].0 == c;
        }
        if exists i :: 0 <= i < |t[1..]| && t[1..][i].0 == c {
          var i :| 0 <= i < |t[1..]| && t[1..][i].0 == c;
          assert t[i + 1].0 == c;
        }
      }
    }
  }

  lemma {:induction false} LookupInWellFormed(t: seq<(char, char)>, i: nat)
    requires WellFormedTable(t) && i < |t|
    ensures Lookup(t, t[i].0) == t[i].1
  {
  }

  /** For a well-formed table, applying the entries one by one is the per-character map. */
  lemma {:induction false} ThroughIsLookup(c: char, t: seq<(char, char)>)
    requires WellFormedTable(t)
    ensures Through(c, t) == Lookup(t, c)
    decreases |t|
  {
    if t != [] {
      var p, e := t[..|t| - 1], t[|t| - 1];
      assert t == p + [e];
      assert WellFormedTable(p) by {
        forall i, j | 0 <= i < |p| && 0 <= j < |p| && i != j
          ensures p[i].0 != p[j].0 && p[i].1 != p[j].0
        {
          assert p[i] == t[i] && p[j] == t[j];
        }
      }
      ThroughIsLookup(c, p);
      LookupAppend(p, e, c);
      if exists i :: 0 <= i < |p| && p[i].0 == c {
        var i :| 0 <= i < |p| && p[i].0 == c;
        LookupInWellFormed(p, i);
        assert p[i] == t[i];
        assert t[i].1 != t[|t| - 1].0;
      }
    }
  }

  /** Position of c among the keys of Replacements, or -1: the proof device that shows the
      keys distinct. */
  function KeyRank(c: char): int
  {
    if c == '|' then 0
    else if c == '\U{0965}' then 1
    else if c == '0' then 2
    else if c == '1' then 3
    else if c == '2' then 4
    else if c == '3' then 5
    else if c == '4' then 6
    else if c == '5' then 7
    else if c == '6' then 8
    else if c == '7' then 9
    else if c == '8' then 10
    else if c == '9' then 11
    else if c == '\U{00A5}' then 12
    else if c == '\U{00A2}' then 13
    else if c == '\U{00A3}' then 14
    else if c == '\U{00A7}' then 15
    else if c == '\U{00A9}' then 16
    else if c == '\U{00AE}' then 17
    else if c == '\U{00B0}' then 18
    else if c == '\U{00B1}' then 19
    else if c == '\U{00B2}' then 20
    else if c == '\U{00B3}' then 21
    else if c == '\U{00B4}' then 22
    else if c == '\U{00B5}' then 23
    else if c == '\U{00B6}' then 24
    else if c == '\U{00B7}' then 25
    else if c == '\U{00B8}' then 26
    else if c == '\U{00B9}' then 27
    else if c == '\U{00BA}' then 28
    else if c == '\U{00BB}' then 29
    else if c == '\U{00BC}' then 30
    else if c == '\U{00BD}' then 31
    else if c == '\U{00BE}' then 32
    else if c == '\U{00BF}' then 33
    else -1
  }

  /** The facts about one entry of Replacements that the table lemmas need. */
  ghost predicate EntryFacts(i: nat)
    requires i < |Replacements|
  {
    && KeyRank(Replacements[i].0) == i
    && KeyRank(Replacements[i].1) == (if i == 1 then 1 else -1)
    && !IsPySpace(Replacements[i].0) && !IsPySpace(Replacements[i].1)
  }

  lemma EntryFactsFrom0(i: nat)
    requires i < 5
    ensures EntryFacts(i)
  {
    match i
    case 0 => {} case 1 => {} case 2 => {} case 3 => {} case 4 => {}
  }

  lemma EntryFactsFrom5(i: nat)
    requires 5 <= i < 10
    ensures EntryFacts(i)
  {
    match i
    case 5 => {} case 6 => {} case 7 => {} case 8 => {} case 9 => {}
  }

  lemma EntryFactsFrom10(i: nat)
    requires 10 <= i < 15
    ensures EntryFacts(i)
  {
    match i
    case 10 => {} case 11 => {} case 12 => {} case 13 => {} case 14 => {}
  }

  lemma EntryFactsFrom15(i: nat)
    requires 15 <= i < 20
    ensures EntryFacts(i)
  {
    match i
    case 15 => {} case 16 => {} case 17 => {} case 18 => {} case 19 => {}
  }

  lemma EntryFactsFrom20(i: nat)
    requires 20 <= i < 25
    ensures EntryFacts(i)
  {
    match i
    case 20 => {} case 21 => {} case 22 => {} case 23 => {} case 24 => {}
  }

  lemma EntryFactsFrom25(i: nat)
    requires 25 <= i < 30
    ensures EntryFacts(i)
  {
    match i
    case 25 => {} case 26 => {} case 27 => {} case 28 => {} case 29 => {}
  }

  lemma EntryFactsFrom30(i: nat)
    requires 30 <= i < 34
    ensures EntryFacts(i)
  {
    match i
    case 30 => {} case 31 => {} case 32 => {} case 33 => {}
  }

  lemma EntryFactsAll(i: nat)
    requires i < |Replacements|
    ensures EntryFacts(i)
  {
    if i < 5 { EntryFactsFrom0(i); }
    else if i < 10 { EntryFactsFrom5(i); }
    else if i < 15 { EntryFactsFrom10(i); }
    else if i < 20 { EntryFactsFrom15(i); }
    else if i < 25 { EntryFactsFrom20(i); }
    else if i < 30 { EntryFactsFrom25(i); }
    else { EntryFactsFrom30(i); }
  }

  /** The correction table is a per-character map: distinct keys, and no value is the key of
      another entry (the double danda maps to itself). */
  lemma ReplacementsWellFormed()
    ensures WellFormedTable(Replacements)
  {
    forall i, j | 0 <= i < |Replacements| && 0 <= j < |Replacements| && i != j
      ensures Replacements[i].0 != Replacements[j].0 && Replacements[i].1 != Replacements[j].0
    {
      EntryFactsAll(i);
      EntryFactsAll(j);
    }
  }

  /** The ASCII digits and '|' are keys of the table. */
  lemma DigitsAreKeys(c: char)
    requires '0' <= c <= '9' || c == '|'
    ensures 0 <= KeyRank(c) < |Replacements| && Replacements[KeyRank(c)].0 == c
  {
  }

  /** The correction of one character. */
  function CorrectChar(c: char): char
  {
    Lookup(Replacements, c)
  }

  /** The correction applied to every character of a text. */
  function Translate(s: string): (r: string)
    ensures |r| == |s|
  {
    seq(|s|, i requires 0 <= i < |s| => CorrectChar(s[i]))
  }

  /** Per-character facts of the correction: characters that are no key stay in place, no
      ASCII digit or '|' survives, whitespace is neither created nor removed, and correcting
      twice is correcting once. */
  lemma {:induction false} CorrectCharFacts(c: char)
    ensures (forall i :: 0 <= i < |Replacements| ==> Replacements[i].0 != c) ==> CorrectChar(c) == c
    ensures !('0' <= CorrectChar(c) <= '9') && CorrectChar(c) != '|'
    ensures IsPySpace(CorrectChar(c)) <==> IsPySpace(c)
    ensures IsPySpace(c) ==> CorrectChar(c) == c
    ensures CorrectChar(CorrectChar(c)) == CorrectChar(c)
  {
    ReplacementsWellFormed();
    var d := CorrectChar(c);
    if i :| 0 <= i < |Replacements| && Replacements[i].0 == c {
      LookupInWellFormed(Replacements, i);
      EntryFactsAll(i);
      assert d == Replacements[i].1;
      if '0' <= d <= '9' || d == '|' {
        DigitsAreKeys(d);
      }
      if j :| 0 <= j < |Replacements| && Replacements[j].0 == d {
        assert j == i;
      }
    } else {
      if '0' <= c <= '9' || c == '|' {
        DigitsAreKeys(c);
      }
    }
  }

  // ---------------------------------------------------------------------------------------
  // Whitespace collapse: ' '.join(text.split())

  /** A text whose only whitespace is single spaces between non-whitespace characters: no
      newline, no leading or trailing whitespace, no two adjacent whitespace characters. */
  predicate Collapsed(x: string)
  {
    forall i :: 0 <= i < |x| && IsPySpace(x[i]) ==> x[i] == ' ' && 0 < i < |x| - 1 && !IsPySpace(x[i + 1])
  }

  function Collapse(s: string): string
  {
    JoinWith(PySplit(s), " ")
  }

  lemma {:induction false} JoinWordsCollapsed(ws: seq<string>)
    requires forall k :: 0 <= k < |ws| ==> IsWord(ws[k])
    ensures Collapsed(JoinWith(ws, " "))
    ensures ws != [] ==> JoinWith(ws, " ") != [] && !IsPySpace(JoinWith(ws, " ")[0])
    ensures ws != [] ==> JoinWith(ws, " ")[0] == ws[0][0]
    decreases |ws|
  {
    if |ws| > 1 {
      var w, rest := ws[0], JoinWith(ws[1..], " ");
      JoinWordsCollapsed(ws[1..]);
      var x := w + " " + rest;
      assert JoinWith(ws, " ") == x;
      forall i | 0 <= i < |x| && IsPySpace(x[i])
        ensures x[i] == ' ' && 0 < i < |x| - 1 && !IsPySpace(x[i + 1])
      {
        if i < |w| {
          assert false;
        } else if i == |w| {
          assert x[i + 1] == rest[0];
        } else {
          assert x[i] == rest[i - |w| - 1];
          if i + 1 < |x| {
            assert x[i + 1] == rest[i - |w|];
          }
        }
      }
    }
  }

  /** The collapsed text has the collapsed shape. */
  lemma CollapseIsCollapsed(s: string)
    ensures Collapsed(Collapse(s))
  {
    JoinWordsCollapsed(PySplit(s));
  }

  /** A text already in collapsed shape is its own collapse. */
  lemma {:induction false} CollapseIdentity(x: string)
    requires Collapsed(x)
    ensures Collapse(x) == x
    decreases |x|
  {
    if x != [] {
      assert !IsPySpace(x[0]);
      var n := WordLength(x);
      assert PySplit(x) == [x[..n]] + PySplit(x[n..]);
      if n < |x| {
        var tail := x[n + 1..];
        assert x[n..][1..] == tail;
        assert !IsPySpace(x[n + 1]);
        assert PySplit(x[n..]) == PySplit(tail);
        assert Collapsed(tail) by {
          forall i | 0 <= i < |tail| && IsPySpace(tail[i])
            ensures tail[i] == ' ' && 0 < i < |tail| - 1 && !IsPySpace(tail[i + 1])
          {
            assert tail[i] == x[n + 1 + i];
            if i + 1 < |tail| {
              assert tail[i + 1] == x[n + 2 + i];
            }
          }
        }
        CollapseIdentity(tail);
        assert x == x[..n] + " " + tail;
      } else {
        assert x[n..] == [];
      }
    }
  }

  lemma TranslateKeepsCollapsed(x: string)
    requires Collapsed(x)
    ensures Collapsed(Translate(x))
  {
    var y := Translate(x);
    forall i | 0 <= i < |y| && IsPySpace(y[i])
      ensures y[i] == ' ' && 0 < i < |y| - 1 && !IsPySpace(y[i + 1])
    {
      CorrectCharFacts(x[i]);
      if i + 1 < |y| {
        CorrectCharFacts(x[i + 1]);
      }
    }
  }

  // ---------------------------------------------------------------------------------------
  // clean_ocr_text

  /** Python's str.split('\n'): the pieces between newlines, at least one. */
  function SplitLines(s: string): (parts: seq<string>)
    ensures |parts| >= 1
    decreases |s|
  {
    if s == [] then [""]
    else
      var rest := SplitLines(s[1..]);
      if s[0] == '\n' then [""] + rest else [[s[0]] + rest[0]] + rest[1..]
  }

  lemma {:induction false} SplitLinesSingle(s: string)
    requires forall i :: 0 <= i < |s| ==> s[i] != '\n'
    ensures SplitLines(s) == [s]
    decreases |s|
  {
    if s != [] {
      SplitLinesSingle(s[1..]);
      assert [s[0]] + s[1..] == s;
    }
  }

  /** The line filter: a stripped line is kept when it is non-empty and has a letter or more
      than two characters. */
  predicate KeepLine(line: string, isAlpha: char -> bool)
  {
    line != [] && (Any(line, isAlpha) || |line| > 2)
  }

  /** The lines the filter loop keeps, stripped, in order. */
  function KeptLines(lines: seq<string>, isAlpha: char -> bool): seq<string>
  {
    if lines == [] then []
    else
      var line := Trim(lines[|lines| - 1], IsPySpace);
      KeptLines(lines[..|lines| - 1], isAlpha) + (if KeepLine(line, isAlpha) then [line] else [])
  }

  /** What clean_ocr_text returns: "" stays "", otherwise the collapsed and corrected text,
      which the line filter keeps whole or drops. */
  function Cleaned(text: string, isAlpha: char -> bool): string
  {
    if text == [] then text
    else
      var u := Translate(Collapse(text));
      if KeepLine(u, isAlpha) then u else []
  }

  /** The replacement loop of clean_ocr_text: the entries of t applied one after the other,
      each replacing every occurrence of its key. */
  method ApplyTable(s: string, t: seq<(char, char)>) returns (r: string)
    ensures |r| == |s|
    ensures forall k :: 0 <= k < |r| ==> r[k] == Through(s[k], t)
  {
    r := s;
    var i := 0;
    while i < |t|
      invariant 0 <= i <= |t|
      invariant |r| == |s|
      invariant forall k :: 0 <= k < |r| ==> r[k] == Through(s[k], t[..i])
    {
      assert t[..i + 1][..i] == t[..i];
      r := ReplaceChar(r, t[i].0, t[i].1);
      i := i + 1;
    }
    assert t[..i] == t;
  }

  /** The line loop of clean_ocr_text: strips every line and keeps those the filter accepts. */
  method FilterLines(lines: seq<string>, isAlpha: char -> bool) returns (kept: seq<string>)
    ensures kept == KeptLines(lines, isAlpha)
  {
    kept := [];
    var n := 0;
    while n < |lines|
      invariant 0 <= n <= |lines|
      invariant kept == KeptLines(lines[..n], isAlpha)
    {
      var line := Trim(lines[n], IsPySpace);
      if line != [] {
        if Any(line, isAlpha) || |line| > 2 {
          kept := kept + [line];
        }
      }
      assert lines[..n + 1][..n] == lines[..n];
      n := n + 1;
    }
    assert lines[..n] == lines;
  }

  /** clean_ocr_text (ocr_utils.py:281-346). */
  method CleanOcrText(text: string, isAlpha: char -> bool) returns (r: string)
    ensures r == Cleaned(text, isAlpha)
  {
    if text == [] {
      return text;
    }
    var collapsed := JoinWith(PySplit(text), " ");
    var cleaned := ApplyTable(collapsed, Replacements);
    ReplacementsWellFormed();
    forall k | 0 <= k < |cleaned| ensures cleaned[k] == CorrectChar(collapsed[k]) {
      ThroughIsLookup(collapsed[k], Replacements);
    }
    assert cleaned == Translate(collapsed);
    var keptLines := FilterLines(SplitLines(cleaned), isAlpha);
    r := JoinWith(keptLines, "\n");
    CleanedSingleLine(text, cleaned, isAlpha);
  }

  /** The collapsed, corrected text is one line that is its own strip, so the line loop keeps
      it whole or drops it. */
  lemma CleanedSingleLine(text: string, u: string, isAlpha: char -> bool)
    requires text != [] && u == Translate(Collapse(text))
    ensures Collapsed(u)
    ensures JoinWith(KeptLines(SplitLines(u), isAlpha), "\n") == Cleaned(text, isAlpha)
  {
    CollapseIsCollapsed(text);
    TranslateKeepsCollapsed(Collapse(text));
    assert forall i :: 0 <= i < |u| ==> u[i] != '\n' by {
      forall i | 0 <= i < |u| ensures u[i] != '\n' {
        if u[i] == '\n' {
          assert IsPySpace(u[i]);
        }
      }
    }
    SplitLinesSingle(u);
    TrimIdentity(u, IsPySpace);
    assert [u][..0] == [];
    assert KeptLines([u], isAlpha) == KeptLines([], isAlpha) + (if KeepLine(u, isAlpha) then [u] else []);
  }

  /** Shape of a cleaned text: one line, no leading or trailing whitespace, no two adjacent
      whitespace characters, every whitespace character a plain space, no ASCII digit and
      no '|'. */
  lemma CleanedShape(text: string, isAlpha: char -> bool)
    ensures Collapsed(Cleaned(text, isAlpha))
    ensures forall i :: 0 <= i < |Cleaned(text, isAlpha)| ==> Cleaned(text, isAlpha)[i] != '\n'
    ensures forall i :: 0 <= i < |Cleaned(text, isAlpha)| ==>
              !('0' <= Cleaned(text, isAlpha)[i] <= '9') && Cleaned(text, isAlpha)[i] != '|'
  {
    if text != [] {
      var c := Collapse(text);
      CleanedSingleLine(text, Translate(c), isAlpha);
      forall i | 0 <= i < |Translate(c)|
        ensures !('0' <= Translate(c)[i] <= '9') && Translate(c)[i] != '|'
      {
        CorrectCharFacts(c[i]);
      }
    }
  }

  /** The keep/drop rule: the result is "" exactly when the collapsed and corrected text has
      no letter and at most two characters; otherwise it is that text, whole. */
  lemma CleanedKeepRule(text: string, isAlpha: char -> bool)
    requires text != []
    ensures var u := Translate(Collapse(text));
      && (Cleaned(text, isAlpha) == [] <==> (!Any(u, isAlpha) && |u| <= 2))
      && (Cleaned(text, isAlpha) != [] ==> Cleaned(text, isAlpha) == u)
  {
  }

  /** Cleaning is idempotent. */
  lemma CleanedIdempotent(text: string, isAlpha: char -> bool)
    ensures Cleaned(Cleaned(text, isAlpha), isAlpha) == Cleaned(text, isAlpha)
  {
    var c := Cleaned(text, isAlpha);
    if c != [] {
      CleanedShape(text, isAlpha);
      CollapseIdentity(c);
      var t := Translate(c);
      forall i | 0 <= i < |c| ensures t[i] == c[i] {
        var u := Translate(Collapse(text));
        assert c == u;
        CorrectCharFacts(Collapse(text)[i]);
      }
      assert t == c;
    }
  }

  // ---------------------------------------------------------------------------------------
  // detect_gujarati_text and detect_language

  /** The Gujarati block U+0A80..U+0AFF. */
  predicate IsGujarati(c: char)
  {
    '\U{0A80}' <= c <= '\U{0AFF}'
  }

  /** The verdict of detect_gujarati_text, with the ratio computed exactly: more than a tenth
      of the letter count are Gujarati-block characters. */
  predicate GujaratiVerdict(text: string, isAlpha: char -> bool)
  {
    var guj := CountWhere(text, IsGujarati);
    var alpha := CountWhere(text, isAlpha);
    text != [] && alpha > 0 && (guj as real) / (alpha as real) > 0.1
  }

  /** detect_gujarati_text (ocr_utils.py:425-444). */
  method DetectGujaratiText(text: string, isAlpha: char -> bool) returns (r: bool)
    ensures r == GujaratiVerdict(text, isAlpha)
  {
    if text == [] {
      return false;
    }
    var gujaratiChars, totalChars := 0, 0;
    var i := 0;
    while i < |text|
      invariant 0 <= i <= |text|
      invariant gujaratiChars == CountWhere(text[..i], IsGujarati)
      invariant totalChars == CountWhere(text[..i], isAlpha)
    {
      assert text[..i + 1][..i] == text[..i];
      if IsGujarati(text[i]) {
        gujaratiChars := gujaratiChars + 1;
      }
      if isAlpha(text[i]) {
        totalChars := totalChars + 1;
      }
      i := i + 1;
    }
    assert text[..i] == text;
    r := totalChars > 0 && (gujaratiChars as real) / (totalChars as real) > 0.1;
  }

  lemma RatioAboveTenth(g: real, a: real)
    requires a > 0.0
    ensures g / a > 0.1 <==> 10.0 * g > a
  {
    var q := g / a;
    assert q * a == g;
    assert (10.0 * q - 1.0) * a == 10.0 * g - a;
  }

  /** The ratio test in integers: Gujarati characters times ten exceed the letter count. */
  lemma GujaratiVerdictInIntegers(text: string, isAlpha: char -> bool)
    ensures GujaratiVerdict(text, isAlpha)
        <==> text != [] && CountWhere(text, isAlpha) > 0
             && 10 * CountWhere(text, IsGujarati) > CountWhere(text, isAlpha)
  {
    var g, a := CountWhere(text, IsGujarati), CountWhere(text, isAlpha);
    if a > 0 {
      RatioAboveTenth(g as real, a as real);
    }
  }

  /** Empty text and text without a Gujarati-block character are never Gujarati; a non-empty
      text of Gujarati letters only always is. */
  lemma GujaratiVerdictCases(text: string, isAlpha: char -> bool)
    ensures !Any(text, IsGujarati) ==> !GujaratiVerdict(text, isAlpha)
    ensures text != [] && (forall i :: 0 <= i < |text| ==> IsGujarati(text[i]) && isAlpha(text[i]))
            ==> GujaratiVerdict(text, isAlpha)
  {
    GujaratiVerdictInIntegers(text, isAlpha);
    CountWherePositive(text, IsGujarati);
    if text != [] && (forall i :: 0 <= i < |text| ==> IsGujarati(text[i]) && isAlpha(text[i])) {
      CountAll(text, IsGujarati);
      CountAll(text, isAlpha);
    }
  }

  lemma {:induction false} CountAll(s: string, p: char -> bool)
    requires forall i :: 0 <= i < |s| ==> p(s[i])
    ensures CountWhere(s, p) == |s|
    decreases |s|
  {
    if s != [] {
      CountAll(s[..|s| - 1], p);
    }
  }

  /** detect_language: a placeholder that answers English for every text. */
  function DetectLanguage(text: string): (lang: string)
    ensures lang == "eng"
  {
    "eng"
  }

  // ---------------------------------------------------------------------------------------
  // Choosing the best OCR candidate (extract_text_with_advanced_ocr)

  /** The raw outputs that pass the filter at line 229, each stripped and cleaned: a raw output
      is kept when its strip is non-blank and its cleaned form is longer than ten characters. */
  function KeepCleaned(raws: seq<string>, isAlpha: char -> bool): (kept: seq<string>)
    ensures forall k :: 0 <= k < |kept| ==> |kept[k]| > 10
  {
    if raws == [] then []
    else
      var prev := KeepCleaned(raws[..|raws| - 1], isAlpha);
      var added := KeptOutput(raws[|raws| - 1], isAlpha);
      assert forall k :: |prev| <= k < |prev + added| ==> (prev + added)[k] == added[k - |prev|];
      prev + added
  }

  /** What one raw output contributes: its cleaned strip when that strip is non-blank and
      the cleaned text is longer than ten characters, else nothing. */
  function KeptOutput(raw: string, isAlpha: char -> bool): (added: seq<string>)
    ensures |added| <= 1
    ensures forall k :: 0 <= k < |added| ==> |added[k]| > 10
  {
    var t := Trim(raw, IsPySpace);
    var c := Cleaned(t, isAlpha);
    if t != [] && |c| > 10 then [c] else []
  }

  /** The EasyOCR outputs kept by the fallback: longer than ten characters, not cleaned. */
  function KeepLong(raws: seq<string>): (kept: seq<string>)
    ensures forall k :: 0 <= k < |kept| ==> |kept[k]| > 10
  {
    if raws == [] then []
    else KeepLong(raws[..|raws| - 1]) + (if |raws[|raws| - 1]| > 10 then [raws[|raws| - 1]] else [])
  }

  /** The candidate list all_results: the Tesseract outputs; when none survives and Gujarati
      is requested, the EasyOCR outputs; when still none, the English-only outputs. */
  function Candidates(tesseract: seq<string>, easy: seq<string>, english: seq<string>,
                      languages: seq<string>, isAlpha: char -> bool): (all: seq<string>)
    ensures forall k :: 0 <= k < |all| ==> |all[k]| > 10
  {
    var first := KeepCleaned(tesseract, isAlpha);
    var second := if first == [] && "guj" in languages then KeepLong(easy) else first;
    if second == [] then KeepCleaned(english, isAlpha) else second
  }

  /** The score of a candidate: its length plus three per Gujarati-block character. */
  function Score(text: string): int
  {
    |text| + 3 * CountWhere(text, IsGujarati)
  }

  function ScoreKey(text: string): real
  {
    Score(text) as real
  }

  function ScoredKey(entry: (string, int)): real
  {
    entry.1 as real
  }

  method KeepCleanedLoop(raws: seq<string>, isAlpha: char -> bool) returns (kept: seq<string>)
    ensures kept == KeepCleaned(raws, isAlpha)
  {
    kept := [];
    var i := 0;
    while i < |raws|
      invariant 0 <= i <= |raws|
      invariant kept == KeepCleaned(raws[..i], isAlpha)
    {
      assert raws[..i + 1][..i] == raws[..i];
      assert KeepCleaned(raws[..i + 1], isAlpha) == kept + KeptOutput(raws[i], isAlpha);
      var t := Trim(raws[i], IsPySpace);
      if t != [] {
        var c := CleanOcrText(t, isAlpha);
        if c != [] && |c| > 10 {
          kept := kept + [c];
        }
      }
      i := i + 1;
    }
    assert raws[..i] == raws;
  }

  /** The candidate collection of extract_text_with_advanced_ocr (ocr_utils.py:209-258). */
  method CollectCandidates(tesseract: seq<string>, easy: seq<string>, english: seq<string>,
                           languages: seq<string>, isAlpha: char -> bool)
    returns (allResults: seq<string>)
    ensures allResults == Candidates(tesseract, easy, english, languages, isAlpha)
  {
    allResults := KeepCleanedLoop(tesseract, isAlpha);
    if allResults == [] && "guj" in languages {
      var i := 0;
      while i < |easy|
        invariant 0 <= i <= |easy|
        invariant allResults == KeepLong(easy[..i])
      {
        assert easy[..i + 1][..i] == easy[..i];
        if easy[i] != [] && |easy[i]| > 10 {
          allResults := allResults + [easy[i]];
        }
        i := i + 1;
      }
      assert easy[..i] == easy;
    }
    if allResults == [] {
      allResults := KeepCleanedLoop(english, isAlpha);
    }
  }

  /** The scoring loop: each candidate paired with its score. */
  method ScoreAll(all: seq<string>) returns (scored: seq<(string, int)>)
    ensures |scored| == |all|
    ensures forall j :: 0 <= j < |all| ==> scored[j] == (all[j], Score(all[j]))
  {
    scored := [];
    var k := 0;
    while k < |all|
      invariant 0 <= k <= |all|
      invariant |scored| == k
      invariant forall j :: 0 <= j < k ==> scored[j] == (all[j], Score(all[j]))
    {
      var gujaratiChars := CountWhere(all[k], IsGujarati);
      scored := scored + [(all[k], |all[k]| + gujaratiChars * 3)];
      k := k + 1;
    }
  }

  /** The selection in extract_text_with_advanced_ocr (ocr_utils.py:200-279): gather the
      candidates, score them, sort by score descending (stable) and return the first; "" when
      there is no candidate. */
  method ExtractTextWithAdvancedOcr(tesseract: seq<string>, easy: seq<string>, english: seq<string>,
                                    languages: seq<string>, isAlpha: char -> bool)
    returns (best: string)
    ensures var all := Candidates(tesseract, easy, english, languages, isAlpha);
      && (all == [] ==> best == [])
      && (all != [] ==> best == all[FirstMaxIndex(all, ScoreKey)])
  {
    var allResults := CollectCandidates(tesseract, easy, english, languages, isAlpha);
    if allResults == [] {
      return "";
    }
    var scored := ScoreAll(allResults);
    var sorted := SortDescending(scored, ScoredKey);
    SortHeadIsFirstMax(scored, ScoredKey);
    SameFirstMax(allResults, scored);
    best := sorted[0].0;
  }

  lemma {:induction false} SameFirstMax(all: seq<string>, scored: seq<(string, int)>)
    requires all != [] && |scored| == |all|
    requires forall j :: 0 <= j < |all| ==> scored[j] == (all[j], Score(all[j]))
    ensures FirstMaxIndex(scored, ScoredKey) == FirstMaxIndex(all, ScoreKey)
    decreases |all|
  {
    if |all| > 1 {
      SameFirstMax(all[1..], scored[1..]);
    }
  }

  /** The returned text is a candidate of maximal score, the first such in candidate order,
      and longer than ten characters. */
  lemma BestCandidateFacts(all: seq<string>)
    requires all != [] && forall k :: 0 <= k < |all| ==> |all[k]| > 10
    ensures var i := FirstMaxIndex(all, ScoreKey);
      && |all[i]| > 10
      && (forall j :: 0 <= j < |all| ==> Score(all[j]) <= Score(all[i]))
      && (forall j :: 0 <= j < i ==> Score(all[j]) < Score(all[i]))
  {
    var i := FirstMaxIndex(all, ScoreKey);
    forall j | 0 <= j < |all| ensures Score(all[j]) <= Score(all[i]) {
      assert ScoreKey(all[j]) <= ScoreKey(all[i]);
    }
    forall j | 0 <= j < i ensures Score(all[j]) < Score(all[i]) {
      assert ScoreKey(all[j]) < ScoreKey(all[i]);
    }
  }

  // ---------------------------------------------------------------------------------------
  // process_scanned_pdf

  datatype PageRecord = PageRecord(page: int, text: string, confidence: real)

  /** The text OCR yields for page i: Gujarati and English first when Gujarati is requested,
      then the requested languages, then English alone, each tried only when the previous
      answer is blank. `ocr(i, langs)` stands for extract_text_with_ocr on the image of page i. */
  function PageOcrText(ocr: (nat, seq<string>) -> string, i: nat, languages: seq<string>): string
  {
    var first := if "guj" in languages then ocr(i, ["guj", "eng"]) else "";
    var second := if IsBlank(first, IsPySpace) then ocr(i, languages) else first;
    if IsBlank(second, IsPySpace) then ocr(i, ["eng"]) else second
  }

  /** The records for the first n page images: one per page with non-blank text. */
  function ScannedRecords(n: nat, ocr: (nat, seq<string>) -> string, languages: seq<string>): seq<PageRecord>
  {
    if n == 0 then []
    else
      ScannedRecords(n - 1, ocr, languages)
        + (if PageHasText(ocr, n - 1, languages) then [PageRecord(n, PageOcrText(ocr, n - 1, languages), 0.8)] else [])
  }

  /** OCR found some non-whitespace text on page i. */
  predicate PageHasText(ocr: (nat, seq<string>) -> string, i: nat, languages: seq<string>)
  {
    !IsBlank(PageOcrText(ocr, i, languages), IsPySpace)
  }

  /** process_scanned_pdf (ocr_utils.py:356-397), for a document of pageCount images. */
  method ProcessScannedPdf(pageCount: nat, ocr: (nat, seq<string>) -> string, languages: seq<string>)
    returns (results: seq<PageRecord>)
    ensures results == ScannedRecords(pageCount, ocr, languages)
  {
    results := [];
    var pageNum := 0;
    while pageNum < pageCount
      invariant 0 <= pageNum <= pageCount
      invariant results == ScannedRecords(pageNum, ocr, languages)
    {
      var text := OcrPage(ocr, pageNum, languages);
      if Trim(text, IsPySpace) != [] {
        results := results + [PageRecord(pageNum + 1, text, 0.8)];
      }
      pageNum := pageNum + 1;
    }
  }

  /** The language cascade for one page (ocr_utils.py:371-384). */
  method OcrPage(ocr: (nat, seq<string>) -> string, i: nat, languages: seq<string>) returns (text: string)
    ensures text == PageOcrText(ocr, i, languages)
  {
    text := "";
    if "guj" in languages {
      text := ocr(i, ["guj", "eng"]);
    }
    if Trim(text, IsPySpace) == [] {
      text := ocr(i, languages);
    }
    if Trim(text, IsPySpace) == [] {
      text := ocr(i, ["eng"]);
    }
  }

  /** A record of the scan of an n-page document: its page lies in 1..n, it carries that
      page's OCR text, which is not blank, and confidence 0.8. */
  ghost predicate RecordOfScan(r: PageRecord, n: nat, ocr: (nat, seq<string>) -> string, languages: seq<string>)
  {
    && 1 <= r.page <= n
    && r.text == PageOcrText(ocr, r.page - 1, languages)
    && !IsBlank(r.text, IsPySpace)
    && r.confidence == 0.8
  }

  /** Every record carries its page's OCR text, which is never blank, and confidence 0.8; the
      records come in strictly increasing page order. */
  lemma {:induction false} ScannedRecordsSound(n: nat, ocr: (nat, seq<string>) -> string, languages: seq<string>)
    ensures forall k :: 0 <= k < |ScannedRecords(n, ocr, languages)| ==>
              RecordOfScan(ScannedRecords(n, ocr, languages)[k], n, ocr, languages)
    ensures forall a, b :: 0 <= a < b < |ScannedRecords(n, ocr, languages)| ==>
              ScannedRecords(n, ocr, languages)[a].page < ScannedRecords(n, ocr, languages)[b].page
  {
    if n > 0 {
      ScannedRecordsSound(n - 1, ocr, languages);
      var prev := ScannedRecords(n - 1, ocr, languages);
      var rs := ScannedRecords(n, ocr, languages);
      var text := PageOcrText(ocr, n - 1, languages);
      assert rs == prev + (if PageHasText(ocr, n - 1, languages) then [PageRecord(n, text, 0.8)] else []);
      forall k | 0 <= k < |rs| ensures RecordOfScan(rs[k], n, ocr, languages) {
        if k < |prev| {
          assert rs[k] == prev[k];
          assert RecordOfScan(prev[k], n - 1, ocr, languages);
        } else {
          assert rs[k] == PageRecord(n, text, 0.8);
        }
      }
      forall a, b | 0 <= a < b < |rs| ensures rs[a].page < rs[b].page {
        assert rs[a] == prev[a];
        assert RecordOfScan(prev[a], n - 1, ocr, languages);
        if b < |prev| {
          assert rs[b] == prev[b];
        } else {
          assert rs[b].page == n;
        }
      }
    }
  }

  /** The records for n pages extend those for n - 1 pages by page n's record, if any. */
  lemma ScannedRecordsStep(n: nat, ocr: (nat, seq<string>) -> string, languages: seq<string>)
    requires n > 0
    ensures |ScannedRecords(n, ocr, languages)| >= |ScannedRecords(n - 1, ocr, languages)|
    ensures forall k :: 0 <= k < |ScannedRecords(n - 1, ocr, languages)| ==>
              ScannedRecords(n, ocr, languages)[k] == ScannedRecords(n - 1, ocr, languages)[k]
    ensures PageHasText(ocr, n - 1, languages) ==>
              |ScannedRecords(n, ocr, languages)| == |ScannedRecords(n - 1, ocr, languages)| + 1
              && ScannedRecords(n, ocr, languages)[|ScannedRecords(n - 1, ocr, languages)|].page == n
  {
  }

  /** Some record in rs is for page i + 1. */
  ghost predicate HasRecordFor(rs: seq<PageRecord>, i: nat)
  {
    exists k :: 0 <= k < |rs| && rs[k].page == i + 1
  }

  /** Every page whose OCR text is not blank has a record. */
  lemma {:induction false} ScannedRecordsComplete(n: nat, ocr: (nat, seq<string>) -> string, languages: seq<string>, i: nat)
    requires i < n && PageHasText(ocr, i, languages)
    ensures HasRecordFor(ScannedRecords(n, ocr, languages), i)
  {
    var prev := ScannedRecords(n - 1, ocr, languages);
    var rs := ScannedRecords(n, ocr, languages);
    ScannedRecordsStep(n, ocr, languages);
    if i < n - 1 {
      ScannedRecordsComplete(n - 1, ocr, languages, i);
      var k :| 0 <= k < |prev| && prev[k].page == i + 1;
      assert rs[k] == prev[k];
    } else {
      assert rs[|prev|].page == i + 1;
    }
  }
}
