/**
 Parsing the mount table. A `char` is one byte of it. The kernel writes space,
 tab, newline and backslash in a device or path as a three-digit octal escape.
 */
module MountParse {
  import opened Text
  import opened Mounts

  predicate IsOctal(c: char)
  {
    '0' <= c <= '7'
  }

  /** The text starts with a backslash and three octal digits. */
  predicate StartsEscape(s: string)
  {
    |s| > 3 && s[0] == '\\' && IsOctal(s[1]) && IsOctal(s[2]) && IsOctal(s[3])
  }

  /** The byte of an escape; the arithmetic is on bytes, so it wraps at 256. */
  function Decoded(s: string): char
    requires StartsEscape(s)
  {
    var v := (s[1] as int - 48) * 64 + (s[2] as int - 48) * 8 + (s[3] as int - 48);
    (v % 256) as char
  }

  function Unescape(s: string): string
  {
    if s == "" then ""
    else if StartsEscape(s) then [Decoded(s)] + Unescape(s[4..])
    else [s[0]] + Unescape(s[1..])
  }

  lemma {:induction false} NothingToUnescape(s: string)
    requires '\\' !in s
    ensures Unescape(s) == s
  {
    if s != "" {
      assert s[0] in s;
      NothingToUnescape(s[1..]);
    }
  }

  /** The loop: an index that jumps over an escape, writing bytes out. */
  method UnescapeLoop(s: string) returns (r: string)
    ensures r == Unescape(s)
  {
    if '\\' !in s {
      NothingToUnescape(s);
      return s;
    }
    r := "";
    var i := 0;
    while i < |s|
      invariant 0 <= i <= |s|
      invariant r + Unescape(s[i..]) == Unescape(s)
    {
      if s[i] == '\\' && i + 3 < |s| && IsOctal(s[i + 1]) && IsOctal(s[i + 2]) && IsOctal(s[i + 3]) {
        assert StartsEscape(s[i..]) && s[i..][4..] == s[i + 4..];
        SeqAssociates(r, [Decoded(s[i..])], Unescape(s[i + 4..]));
        r := r + [Decoded(s[i..])];
        i := i + 4;
        continue;
      }
      assert !StartsEscape(s[i..]) && s[i..][1..] == s[i + 1..];
      SeqAssociates(r, [s[i]], Unescape(s[i + 1..]));
      r := r + [s[i]];
      i := i + 1;
    }
    assert s[i..] == "" && r + "" == r;
  }

  // ---------------------------------------------------------------------
  // Fields
  // ---------------------------------------------------------------------

  /** How many bytes of white space the text starts with: one for ASCII white
      space, two or three for the UTF-8 form of a Unicode white-space character,
      none otherwise. */
  function SpaceWidth(s: string): (w: nat)
    ensures w <= |s|
  {
    if s == "" then 0
    else
      var a := s[0] as int;
      if 9 <= a <= 13 || a == 32 then 1
      else if |s| < 2 then 0
      else
        var b := s[1] as int;
        if a == 0xC2 && (b == 0x85 || b == 0xA0) then 2
        else if |s| < 3 then 0
        else
          var c := s[2] as int;
          if || (a == 0xE1 && b == 0x9A && c == 0x80)
             || (a == 0xE2 && b == 0x80 && (0x80 <= c <= 0x8A || c == 0xA8 || c == 0xA9 || c == 0xAF))
             || (a == 0xE2 && b == 0x81 && c == 0x9F)
             || (a == 0xE3 && b == 0x80 && c == 0x80)
          then 3
          else 0
  }

  /** The white-space characters of Unicode, by code point. */
  predicate IsWhiteSpace(c: nat)
  {
    || 9 <= c <= 13 || c == 0x20 || c == 0x85 || c == 0xA0 || c == 0x1680 || 0x2000 <= c <= 0x200A
    || c == 0x2028 || c == 0x2029 || c == 0x202F || c == 0x205F || c == 0x3000
  }

  /** The bytes of a character below 0x10000, section 3 of RFC 3629. */
  function Utf8(c: nat): seq<int>
  {
    if c < 0x80 then [c]
    else if c < 0x800 then [0xC0 + c / 64, 0x80 + c % 64]
    else [0xE0 + c / 4096, 0x80 + c / 64 % 64, 0x80 + c % 64]
  }

  predicate StartsWith(s: string, bytes: seq<int>)
  {
    |bytes| <= |s| && forall i :: 0 <= i < |bytes| ==> s[i] as int == bytes[i]
  }

  /** White space is read off exactly where a white-space character is encoded,
      and all its bytes. */
  lemma {:induction false} SpaceIsWhiteSpace(s: string)
    ensures forall c: nat :: IsWhiteSpace(c) && StartsWith(s, Utf8(c)) ==> SpaceWidth(s) == |Utf8(c)|
    ensures SpaceWidth(s) > 0 ==> exists c: nat :: IsWhiteSpace(c) && StartsWith(s, Utf8(c))
  {
    forall c: nat | IsWhiteSpace(c) && StartsWith(s, Utf8(c))
      ensures SpaceWidth(s) == |Utf8(c)|
    {
      EncodedIsSpace(s, c);
    }
    if SpaceWidth(s) > 0 {
      var c := CharacterAt(s);
    }
  }

  lemma {:induction false} EncodedIsSpace(s: string, c: nat)
    requires IsWhiteSpace(c) && StartsWith(s, Utf8(c))
    ensures SpaceWidth(s) == |Utf8(c)|
  {
    var b := Utf8(c);
    assert s[0] as int == b[0];
    if |b| > 1 { assert s[1] as int == b[1]; }
    if |b| > 2 { assert s[2] as int == b[2]; }
  }

  lemma {:induction false} CharacterAt(s: string) returns (c: nat)
    requires SpaceWidth(s) > 0
    ensures IsWhiteSpace(c) && StartsWith(s, Utf8(c))
  {
    var a := s[0] as int;
    if SpaceWidth(s) == 1 {
      c := a;
    } else if SpaceWidth(s) == 2 {
      c := (a - 0xC0) * 64 + (s[1] as int - 0x80);
    } else {
      c := (a - 0xE0) * 4096 + (s[1] as int - 0x80) * 64 + (s[2] as int - 0x80);
    }
  }

  /** An escape above 377 wraps like the byte arithmetic it comes from. */
  lemma {:induction false} EscapesWrap()
    ensures Unescape("\\777") == [255 as char] && Unescape("\\400") == [0 as char]
  {
    assert "\\777"[4..] == "" && "\\400"[4..] == "";
  }

  /** How many bytes come before the first white space. */
  function WordLength(s: string): (n: nat)
    ensures n <= |s|
    ensures s != "" && SpaceWidth(s) == 0 ==> n > 0
  {
    if s == "" || SpaceWidth(s) > 0 then 0 else 1 + WordLength(s[1..])
  }

  /** The words between runs of white space. */
  function Fields(s: string): seq<string>
    decreases |s|
  {
    if s == "" then []
    else if SpaceWidth(s) > 0 then Fields(s[SpaceWidth(s)..])
    else [s[..WordLength(s)]] + Fields(s[WordLength(s)..])
  }

  /** The entry of one line, if it has the three fields. */
  function ParseLine(line: string): seq<Entry>
  {
    var f := Fields(line);
    if |f| < 3 then [] else [Entry(Unescape(f[0]), Unescape(f[1]), f[2])]
  }

  function ParseLines(lines: seq<string>): seq<Entry>
  {
    if lines == [] then [] else ParseLine(lines[0]) + ParseLines(lines[1..])
  }

  /** The table's entries in file order. */
  method Parse(data: string) returns (entries: seq<Entry>)
    ensures entries == ParseLines(SplitOn(data, '\n'))
  {
    hide ParseLines, Fields, Unescape, SplitOn;
    var lines := SplitOn(data, '\n');
    entries := [];
    assert lines[0..] == lines;
    for i := 0 to |lines|
      invariant entries + ParseLines(lines[i..]) == ParseLines(lines)
    {
      NextLine(lines, i);
      SeqAssociates(entries, ParseLine(lines[i]), ParseLines(lines[i + 1..]));
      var fields := Fields(lines[i]);
      if |fields| < 3 {
        continue;
      }
      var device := UnescapeLoop(fields[0]);
      var path := UnescapeLoop(fields[1]);
      entries := entries + [Entry(device, path, fields[2])];
    }
    NoLines(lines[|lines|..]);
  }

  lemma {:induction false} NextLine(lines: seq<string>, i: nat)
    requires i < |lines|
    ensures ParseLines(lines[i..]) == ParseLine(lines[i]) + ParseLines(lines[i + 1..])
  {
    hide ParseLine;
    assert lines[i..][1..] == lines[i + 1..];
  }

  lemma {:induction false} NoLines(lines: seq<string>)
    requires lines == []
    ensures ParseLines(lines) == []
  {}

  // ---------------------------------------------------------------------
  // Printing, and reading back what was printed
  // ---------------------------------------------------------------------

  predicate Special(c: char)
  {
    c == ' ' || c == '\t' || c == '\n' || c == '\\'
  }

  function EscapeOf(c: char): string
    requires Special(c)
  {
    match c
    case ' ' => "\\040"
    case '\t' => "\\011"
    case '\n' => "\\012"
    case _ => "\\134"
  }

  /** The kernel's encoding of a device or path. */
  function Escape(s: string): string
  {
    if s == "" then ""
    else (if Special(s[0]) then EscapeOf(s[0]) else [s[0]]) + Escape(s[1..])
  }

  lemma {:induction false} UnescapeUndoesEscape(s: string)
    ensures Unescape(Escape(s)) == s
  {
    if s != "" {
      var rest := Escape(s[1..]);
      UnescapeUndoesEscape(s[1..]);
      if Special(s[0]) {
        var t := EscapeOf(s[0]) + rest;
        assert t[4..] == rest && StartsEscape(t);
        assert Decoded(t) == s[0];
      } else {
        var t := [s[0]] + rest;
        assert t[1..] == rest && !StartsEscape(t);
      }
    }
  }

  /** No white space starts anywhere in the text... */
  ghost predicate NoSpace(s: string)
  {
    forall i :: 0 <= i < |s| ==> SpaceWidth(s[i..]) == 0
  }

  /** ... or only the kinds the kernel escapes. */
  ghost predicate OnlyEscapedSpace(s: string)
  {
    forall i :: 0 <= i < |s| ==> SpaceWidth(s[i..]) == 0 || s[i] == ' ' || s[i] == '\t' || s[i] == '\n'
  }

  lemma {:induction false} NoSpaceCons(c: char, rest: string)
    requires NoSpace(rest) && SpaceWidth([c] + rest) == 0
    ensures NoSpace([c] + rest)
  {
    var s := [c] + rest;
    forall i | 0 <= i < |s|
      ensures SpaceWidth(s[i..]) == 0
    {
      if i == 0 {
        assert s[0..] == s;
      } else {
        assert s[i..] == rest[i - 1..];
      }
    }
  }

  /** Escapes are plain ASCII, so they hide white space and create none. */
  lemma {:induction false} EscapedHasNoSpace(s: string)
    requires OnlyEscapedSpace(s)
    ensures NoSpace(Escape(s))
  {
    if s != "" {
      var tail, rest := s[1..], Escape(s[1..]);
      assert forall i :: 0 <= i < |tail| ==> tail[i..] == s[i + 1..];
      assert OnlyEscapedSpace(tail);
      EscapedHasNoSpace(tail);
      if Special(s[0]) {
        var e := EscapeOf(s[0]);
        NoSpaceCons(e[3], rest);
        NoSpaceCons(e[2], [e[3]] + rest);
        NoSpaceCons(e[1], [e[2]] + ([e[3]] + rest));
        NoSpaceCons(e[0], [e[1]] + ([e[2]] + ([e[3]] + rest)));
        assert e + rest == [e[0]] + ([e[1]] + ([e[2]] + ([e[3]] + rest)));
      } else {
        assert s[0..] == s;
        HeadUnchanged(s);
        NoSpaceCons(s[0], rest);
      }
    }
  }

  /** A plain first byte starts white space after escaping only if it did before. */
  lemma {:induction false} HeadUnchanged(s: string)
    requires s != "" && !Special(s[0]) && SpaceWidth(s) == 0
    ensures SpaceWidth([s[0]] + Escape(s[1..])) == 0
  {}

  /** A word followed by a space is the first field. */
  lemma {:induction false} FirstField(word: string, rest: string)
    requires word != "" && NoSpace(word)
    ensures Fields(word + " " + rest) == [word] + Fields(rest)
  {
    var s := word + " " + rest;
    WordBeforeSpace(word, rest);
    assert s[..|word|] == word && s[|word|..] == " " + rest;
    assert (" " + rest)[1..] == rest;
    assert SpaceWidth(" " + rest) == 1;
    assert word[0..] == word;
    WidthBeforeSpace(word, rest);
  }

  /** A space ends any multi-byte form, so none reaches across it. */
  lemma {:induction false} WidthBeforeSpace(word: string, rest: string)
    requires word != "" && SpaceWidth(word) == 0
    ensures SpaceWidth(word + " " + rest) == 0
  {}

  lemma {:induction false} WordBeforeSpace(word: string, rest: string)
    requires NoSpace(word)
    ensures WordLength(word + " " + rest) == |word|
  {
    var s := word + " " + rest;
    if word == "" {
      assert s[0] == ' ';
    } else {
      var tail := word[1..];
      assert word[0..] == word;
      WidthBeforeSpace(word, rest);
      assert forall i :: 0 <= i < |tail| ==> tail[i..] == word[i + 1..];
      WordBeforeSpace(tail, rest);
      assert s[1..] == tail + " " + rest;
    }
  }

  /** An entry as the kernel prints it, with whatever follows on its line. */
  datatype Row = Row(entry: Entry, options: string)

  function PrintRow(r: Row): string
  {
    Escape(r.entry.device) + " " + (Escape(r.entry.path) + " " + (r.entry.fsType + " " + r.options))
  }

  function Print(rows: seq<Row>): string
  {
    if rows == [] then "" else PrintRow(rows[0]) + "\n" + Print(rows[1..])
  }

  function EntriesOf(rows: seq<Row>): seq<Entry>
  {
    if rows == [] then [] else [rows[0].entry] + EntriesOf(rows[1..])
  }

  ghost predicate Printable(r: Row)
  {
    && r.entry.device != "" && OnlyEscapedSpace(r.entry.device)
    && r.entry.path != "" && OnlyEscapedSpace(r.entry.path)
    && r.entry.fsType != "" && NoSpace(r.entry.fsType)
    && '\n' !in r.options
  }

  lemma {:induction false} NoSpaceNoNewline(s: string)
    requires NoSpace(s)
    ensures '\n' !in s
  {
    forall i | 0 <= i < |s|
      ensures s[i] != '\n'
    {
      assert SpaceWidth(s[i..]) == 0 && s[i..][0] == s[i];
    }
  }

  lemma {:induction false} EscapeNotEmpty(s: string)
    requires s != ""
    ensures Escape(s) != ""
  {}

  lemma {:induction false} RowReadsBack(r: Row)
    requires Printable(r)
    ensures ParseLine(PrintRow(r)) == [r.entry]
  {
    var d, p, t := Escape(r.entry.device), Escape(r.entry.path), r.entry.fsType;
    EscapedHasNoSpace(r.entry.device);
    EscapedHasNoSpace(r.entry.path);
    EscapeNotEmpty(r.entry.device);
    EscapeNotEmpty(r.entry.path);
    hide Escape, NoSpace, OnlyEscapedSpace, Fields, Unescape;
    FirstField(d, p + " " + (t + " " + r.options));
    FirstField(p, t + " " + r.options);
    FirstField(t, r.options);
    UnescapeUndoesEscape(r.entry.device);
    UnescapeUndoesEscape(r.entry.path);
    var f := Fields(PrintRow(r));
    assert f[0] == d && f[1] == p && f[2] == t;
  }

  lemma {:induction false} RowIsOneLine(r: Row)
    requires Printable(r)
    ensures '\n' !in PrintRow(r)
  {
    EscapedHasNoSpace(r.entry.device);
    EscapedHasNoSpace(r.entry.path);
    hide Escape, NoSpace, OnlyEscapedSpace;
    NoSpaceNoNewline(Escape(r.entry.device));
    NoSpaceNoNewline(Escape(r.entry.path));
    NoSpaceNoNewline(r.entry.fsType);
  }

  /** Round trip: printing a table and parsing it gives back the same entries in
      order, whatever follows the three fields on each line. */
  lemma {:induction false} ParseUndoesPrint(rows: seq<Row>)
    requires forall i :: 0 <= i < |rows| ==> Printable(rows[i])
    ensures ParseLines(SplitOn(Print(rows), '\n')) == EntriesOf(rows)
  {
    if rows == [] {
      assert [""][1..] == [];
      assert Fields("") == [];
    } else {
      hide Printable, PrintRow, ParseLine, SplitOn;
      RowReadsBack(rows[0]);
      RowIsOneLine(rows[0]);
      ParseUndoesPrint(rows[1..]);
      SplitOffFirst(PrintRow(rows[0]), '\n', Print(rows[1..]));
      var lines := [PrintRow(rows[0])] + SplitOn(Print(rows[1..]), '\n');
      assert lines[1..] == SplitOn(Print(rows[1..]), '\n');
    }
  }
}
