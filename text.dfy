/** The string primitives the dashboard's components build on, with the meaning JavaScript gives
    them: `String.prototype.trim`, `split` with a one-character separator, `split(/\r?\n/)`,
    and `toLowerCase` restricted to ASCII letters. */
module Text {

  /** The characters JavaScript treats as white space, both for `trim` and for the regular
      expression classes `\s` and `\S`: the ASCII spaces and line ends, no-break space, the
      Unicode space separators, the line and paragraph separators and the byte-order mark. */
  predicate IsSpace(c: char) {
    || c == ' ' || c == '\t' || c == '\n' || c == '\r' || c == '\U{000B}' || c == '\U{000C}'
    || c == '\U{00A0}' || c == '\U{1680}' || ('\U{2000}' <= c <= '\U{200A}')
    || c == '\U{2028}' || c == '\U{2029}' || c == '\U{202F}' || c == '\U{205F}'
    || c == '\U{3000}' || c == '\U{FEFF}'
  }

  predicate AllSpace(s: string) {
    forall k :: 0 <= k < |s| ==> IsSpace(s[k])
  }

  predicate NoSpace(s: string) {
    forall k :: 0 <= k < |s| ==> !IsSpace(s[k])
  }

  /** A string with no white space at either end. */
  predicate IsTrimmed(s: string) {
    s == [] || (!IsSpace(s[0]) && !IsSpace(s[|s| - 1]))
  }

  function TrimStart(s: string): (r: string)
    ensures |r| <= |s|
    ensures r == [] || !IsSpace(r[0])
  {
    if s != [] && IsSpace(s[0]) then TrimStart(s[1..]) else s
  }

  function TrimEnd(s: string): (r: string)
    ensures |r| <= |s|
    ensures r == [] || !IsSpace(r[|r| - 1])
  {
    if s != [] && IsSpace(s[|s| - 1]) then TrimEnd(s[..|s| - 1]) else s
  }

  /** `s.trim()`: white space cut off both ends. */
  function Trim(s: string): (r: string)
    ensures IsTrimmed(r) && |r| <= |s|
  {
    var t := TrimStart(s);
    var r := TrimEnd(t);
    assert r == [] || !IsSpace(r[0]) by {
      if r != [] { TrimEndPrefix(t); assert r[0] == t[0]; }
    }
    r
  }

  lemma {:induction false} TrimStartSuffix(s: string)
    ensures TrimStart(s) == s[|s| - |TrimStart(s)|..]
    ensures AllSpace(s[..|s| - |TrimStart(s)|])
  {
    if s != [] && IsSpace(s[0]) {
      TrimStartSuffix(s[1..]);
    }
  }

  lemma {:induction false} TrimEndPrefix(s: string)
    ensures TrimEnd(s) == s[..|TrimEnd(s)|]
    ensures AllSpace(s[|TrimEnd(s)|..])
  {
    if s != [] && IsSpace(s[|s| - 1]) {
      TrimEndPrefix(s[..|s| - 1]);
    }
  }

  /** What trimming keeps: a slice of the input, with only white space cut off either end. */
  lemma TrimSlice(s: string) returns (i: nat)
    ensures i <= |s| - |Trim(s)| && Trim(s) == s[i..i + |Trim(s)|]
    ensures AllSpace(s[..i]) && AllSpace(s[i + |Trim(s)|..])
  {
    var t := TrimStart(s);
    var r := TrimEnd(t);
    TrimStartSuffix(s);
    TrimEndPrefix(t);
    i := |s| - |t|;
    assert r == s[i..i + |r|];
    assert s[i + |r|..] == t[|r|..];
  }

  /** Trimming a string that has no white space at its ends changes nothing; in particular
      trimming is idempotent. */
  lemma {:induction false} TrimOfTrimmed(s: string)
    requires IsTrimmed(s)
    ensures Trim(s) == s
  {
    assert TrimStart(s) == s;
    assert TrimEnd(s) == s;
  }

  predicate IsUpperAscii(c: char) {
    'A' <= c <= 'Z'
  }

  /** `toLowerCase` on one character, for the ASCII letters. */
  function LowerChar(c: char): (r: char)
    ensures IsUpperAscii(c) ==> r as int == c as int + 32
    ensures !IsUpperAscii(c) ==> r == c
    ensures !IsUpperAscii(r)
  {
    if IsUpperAscii(c) then (c as int + 32) as char else c
  }

  function ToLower(s: string): (r: string)
    ensures |r| == |s|
    ensures forall k :: 0 <= k < |s| ==> r[k] == LowerChar(s[k])
  {
    seq(|s|, k requires 0 <= k < |s| => LowerChar(s[k]))
  }

  /** Lower-casing twice is lower-casing once. */
  lemma ToLowerIdempotent(s: string)
    ensures ToLower(ToLower(s)) == ToLower(s)
  {
    assert forall c :: LowerChar(LowerChar(c)) == LowerChar(c);
  }

  /** Two strings that differ only in the case of ASCII letters lower-case to the same string. */
  predicate EqualIgnoringCase(a: string, b: string) {
    ToLower(a) == ToLower(b)
  }

  /** The index of the first occurrence of `c` in `s`. */
  function IndexOf(s: string, c: char): (r: nat)
    requires c in s
    ensures r < |s| && s[r] == c && c !in s[..r]
  {
    if s[0] == c then 0 else 1 + IndexOf(s[1..], c)
  }

  /** `s.split(sep)` for a one-character separator: the pieces between the separators, the
      empty string giving one empty piece. */
  function Split(s: string, sep: char): (r: seq<string>)
    ensures |r| >= 1
    decreases |s|
  {
    if sep !in s then [s]
    else
      var i := IndexOf(s, sep);
      [s[..i]] + Split(s[i + 1..], sep)
  }

  /** `parts.join(sep)`. */
  function Join(parts: seq<string>, sep: char): string
    requires |parts| >= 1
  {
    if |parts| == 1 then parts[0] else parts[0] + [sep] + Join(parts[1..], sep)
  }

  /** Splitting loses nothing: joining the pieces with the separator gives back the input. */
  lemma {:induction false} JoinSplit(s: string, sep: char)
    ensures Join(Split(s, sep), sep) == s
    decreases |s|
  {
    if sep in s {
      var i := IndexOf(s, sep);
      var parts, rest := Split(s, sep), Split(s[i + 1..], sep);
      assert parts == [s[..i]] + rest;
      assert |parts| > 1 && parts[0] == s[..i] && parts[1..] == rest;
      JoinSplit(s[i + 1..], sep);
      assert Join(parts, sep) == s[..i] + [sep] + s[i + 1..];
      assert s[..i] + [sep] + s[i + 1..] == s;
    }
  }

  /** And splitting a join of separator-free pieces gives back exactly those pieces. */
  lemma {:induction false} SplitJoin(parts: seq<string>, sep: char)
    requires |parts| >= 1
    requires forall k :: 0 <= k < |parts| ==> sep !in parts[k]
    ensures Split(Join(parts, sep), sep) == parts
  {
    if |parts| > 1 {
      var s := Join(parts, sep);
      var p := parts[0];
      assert s == p + [sep] + Join(parts[1..], sep);
      assert s[|p|] == sep;
      assert s[..|p|] == p;
      assert IndexOf(s, sep) == |p|;
      assert s[|p| + 1..] == Join(parts[1..], sep);
      SplitJoin(parts[1..], sep);
    }
  }

  /** Drops one carriage return from the end of a piece that was followed by a line feed. */
  function DropCarriageReturn(p: string): string {
    if p != [] && p[|p| - 1] == '\r' then p[..|p| - 1] else p
  }

  /** `text.trim().split(/\r?\n/)`: the trimmed text cut at every line feed, a carriage return
      just before a line feed being part of the line break. */
  function Lines(text: string): (r: seq<string>)
    ensures |r| >= 1
  {
    var pieces := Split(Trim(text), '\n');
    seq(|pieces|, k requires 0 <= k < |pieces| =>
      if k < |pieces| - 1 then DropCarriageReturn(pieces[k]) else pieces[k])
  }

  /** The lines made from any pieces between line feeds, each but the last without the carriage
      return before its line feed; `Lines(text)` is this for the pieces of the trimmed text, and
      the round-trip proof below goes by induction over the pieces of an untrimmed string. */
  function BreakLines(pieces: seq<string>): (r: seq<string>)
    ensures |r| == |pieces|
  {
    seq(|pieces|, k requires 0 <= k < |pieces| =>
      if k < |pieces| - 1 then DropCarriageReturn(pieces[k]) else pieces[k])
  }

  /** For text with Unix line ends, the lines joined back with line feeds are the trimmed text. */
  lemma LinesUnix(text: string)
    requires '\r' !in text
    ensures Join(Lines(text), '\n') == Trim(text)
  {
    var t := Trim(text);
    var pieces := Split(t, '\n');
    var i := TrimSlice(text);
    assert '\r' !in t by {
      forall j | 0 <= j < |t| ensures t[j] != '\r' {
        assert t[j] == text[i + j];
      }
    }
    JoinSplit(t, '\n');
    SplitPieces(t, '\n');
    forall k | 0 <= k < |pieces| ensures Lines(text)[k] == pieces[k] {
      if pieces[k] != [] {
        assert pieces[k][|pieces[k]| - 1] in pieces[k];
      }
    }
    assert Lines(text) == pieces;
  }

  /** No line holds a line feed: every line feed of the text is a line break. */
  lemma LinesHaveNoLineFeed(text: string)
    ensures forall k :: 0 <= k < |Lines(text)| ==> '\n' !in Lines(text)[k]
  {
    var pieces := Split(Trim(text), '\n');
    SplitPieces(Trim(text), '\n');
    forall k, j | 0 <= k < |Lines(text)| && 0 <= j < |Lines(text)[k]|
      ensures Lines(text)[k][j] != '\n'
    {
      var p := pieces[k];
      assert Lines(text)[k][j] == p[j] && p[j] in p;
    }
  }

  /** `parts.join(brk)` for a separator of any length. */
  function JoinWith(parts: seq<string>, brk: string): string
    requires |parts| >= 1
  {
    if |parts| == 1 then parts[0] else parts[0] + brk + JoinWith(parts[1..], brk)
  }

  /** Every line feed of `s` comes right after a carriage return. */
  predicate CrlfBreaks(s: string) {
    forall j :: 0 <= j < |s| && s[j] == '\n' ==> 0 < j && s[j - 1] == '\r'
  }

  /** For text with Windows line ends (every line feed right after a carriage return), the lines
      joined back with carriage return and line feed are the trimmed text. */
  lemma LinesWindows(text: string)
    requires CrlfBreaks(Trim(text))
    ensures JoinWith(Lines(text), "\r\n") == Trim(text)
  {
    BreakLinesJoin(Trim(text));
    assert Lines(text) == BreakLines(Split(Trim(text), '\n'));
  }

  lemma {:induction false} BreakLinesJoin(s: string)
    requires CrlfBreaks(s)
    ensures JoinWith(BreakLines(Split(s, '\n')), "\r\n") == s
    decreases |s|
  {
    if '\n' in s {
      var i := IndexOf(s, '\n');
      var rest := s[i + 1..];
      var parts, tail := Split(s, '\n'), Split(rest, '\n');
      assert parts == [s[..i]] + tail;
      assert |parts| > 1 && parts[0] == s[..i] && parts[1..] == tail;
      CrlfAfterBreak(s, i);
      BreakLinesJoin(rest);
      BreakLinesFirst(parts);
      assert s[i - 1] == '\r';
      assert DropCarriageReturn(s[..i]) == s[..i - 1];
      assert s[..i - 1] + "\r\n" + rest == s;
    }
  }

  /** The text after a line feed keeps every line feed right after a carriage return. */
  lemma CrlfAfterBreak(s: string, i: nat)
    requires CrlfBreaks(s)
    requires i < |s| && s[i] == '\n'
    ensures CrlfBreaks(s[i + 1..])
  {
    var rest := s[i + 1..];
    forall j | 0 <= j < |rest| && rest[j] == '\n' ensures 0 < j && rest[j - 1] == '\r' {
      assert s[i + 1 + j] == '\n';
    }
  }

  /** Joining lines made from several pieces: the first piece without its carriage return, the
      break, then the lines of the other pieces. */
  lemma BreakLinesFirst(parts: seq<string>)
    requires |parts| > 1
    ensures JoinWith(BreakLines(parts), "\r\n") ==
      DropCarriageReturn(parts[0]) + "\r\n" + JoinWith(BreakLines(parts[1..]), "\r\n")
  {
    var lines := BreakLines(parts);
    assert lines[0] == DropCarriageReturn(parts[0]);
    assert lines[1..] == BreakLines(parts[1..]);
  }

  /** Every character of a piece is a character of the input other than the separator. */
  lemma {:induction false} SplitPieces(s: string, sep: char)
    ensures forall k, c :: 0 <= k < |Split(s, sep)| && c in Split(s, sep)[k] ==> c in s && c != sep
    decreases |s|
  {
    if sep in s {
      var i := IndexOf(s, sep);
      assert s == s[..i] + [sep] + s[i + 1..];
      SplitPieces(s[i + 1..], sep);
    }
  }
}
