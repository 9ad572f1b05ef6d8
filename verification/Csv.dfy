/** The CSV line parser of the table importer
    (admin/src/components/gui/schema-sidebar-list.tsx) against the quoting of section 2 of
    RFC 4180. */
module Csv {
  import opened Prelude
  import Strings

  /** The characters String.prototype.trim removes. */
  predicate IsSpace(c: char)
  {
    || '\U{0009}' <= c <= '\U{000d}' || c == ' ' || c == '\U{00a0}' || c == '\U{1680}'
    || '\U{2000}' <= c <= '\U{200a}' || c == '\U{2028}' || c == '\U{2029}' || c == '\U{202f}'
    || c == '\U{205f}' || c == '\U{3000}' || c == '\U{feff}'
  }

  /** The white space and line terminators of ECMAScript, one by one. */
  lemma SpacesOfEcmaScript(c: char)
    ensures IsSpace(c) <==>
      c in {'\t', '\n', '\U{000b}', '\U{000c}', '\r', ' ', '\U{00a0}', '\U{1680}', '\U{2000}', '\U{2001}', '\U{2002}',
            '\U{2003}', '\U{2004}', '\U{2005}', '\U{2006}', '\U{2007}', '\U{2008}', '\U{2009}', '\U{200a}',
            '\U{2028}', '\U{2029}', '\U{202f}', '\U{205f}', '\U{3000}', '\U{feff}'}
  {
  }

  function Trim(s: string): string
  {
    Strings.Trim(s, IsSpace)
  }

  predicate Tight(s: string)
  {
    Strings.Tight(s, IsSpace)
  }

  // ---- The parser -----------------------------------------------------------------------

  /** The fields the loop still has to push when rest is left to read. */
  function Fields(rest: string, current: string, inQuotes: bool): seq<string>
    decreases |rest|
  {
    if rest == "" then [Trim(current)]
    else if rest[0] == '"' then
      if inQuotes && |rest| > 1 && rest[1] == '"' then Fields(rest[2..], current + "\"", inQuotes)
      else Fields(rest[1..], current, !inQuotes)
    else if rest[0] == ',' && !inQuotes then [Trim(current)] + Fields(rest[1..], "", inQuotes)
    else Fields(rest[1..], current + [rest[0]], inQuotes)
  }

  method ParseCSVLine(line: string) returns (result: seq<string>)
    ensures result == Fields(line, "", false)
  {
    result := [];
    var current, inQuotes, i := "", false, 0;
    while i < |line|
      invariant i <= |line|
      invariant result + Fields(line[i..], current, inQuotes) == Fields(line, "", false)
    {
      var c := line[i];
      ghost var rest := line[i..];
      assert rest[1..] == line[i + 1..] && (|rest| > 1 ==> rest[2..] == line[i + 2..]);
      if c == '"' {
        if inQuotes && i + 1 < |line| && line[i + 1] == '"' {
          current := current + "\"";
          i := i + 1;
        } else {
          inQuotes := !inQuotes;
        }
      } else if c == ',' && !inQuotes {
        result := result + [Trim(current)];
        current := "";
      } else {
        current := current + [c];
      }
      i := i + 1;
    }
    result := result + [Trim(current)];
  }

  // ---- RFC 4180 records -----------------------------------------------------------------

  /** A field may be written bare when it holds neither quote nor comma; it may always be quoted. */
  function Written(f: string, quoted: bool): string
  {
    if quoted then "\"" + Strings.Doubled(f) + "\"" else f
  }

  predicate MayBeBare(f: string)
  {
    '"' !in f && ',' !in f
  }

  datatype Cell = Cell(text: string, quoted: bool)

  function Record(cells: seq<Cell>): string
  {
    if cells == [] then ""
    else if |cells| == 1 then Written(cells[0].text, cells[0].quoted)
    else Written(cells[0].text, cells[0].quoted) + "," + Record(cells[1..])
  }

  predicate Writable(cells: seq<Cell>)
  {
    forall i :: 0 <= i < |cells| ==> cells[i].quoted || MayBeBare(cells[i].text)
  }

  lemma {:induction false} ReadDoubled(f: string, rest: string, current: string)
    requires rest == "" || rest[0] != '"'
    ensures Fields(Strings.Doubled(f) + "\"" + rest, current, true) == Fields(rest, current + f, false)
    decreases |f|
  {
    var all := Strings.Doubled(f) + "\"" + rest;
    if f == "" {
      assert all[1..] == rest && current + f == current;
    } else {
      ReadDoubled(f[1..], rest, current + [f[0]]);
      var next := Strings.Doubled(f[1..]) + "\"" + rest;
      assert if f[0] == '"' then all[2..] == next else all[1..] == next;
      assert current + f == current + [f[0]] + f[1..];
    }
  }

  lemma {:induction false} ReadBare(f: string, rest: string, current: string)
    requires MayBeBare(f)
    ensures Fields(f + rest, current, false) == Fields(rest, current + f, false)
    decreases |f|
  {
    if f == "" {
      assert f + rest == rest && current + f == current;
    } else {
      ReadBare(f[1..], rest, current + [f[0]]);
      assert (f + rest)[1..] == f[1..] + rest;
      assert current + f == current + [f[0]] + f[1..];
    }
  }

  lemma {:induction false} ReadQuotedCell(f: string, rest: string)
    requires rest == "" || rest[0] != '"'
    ensures Fields("\"" + (Strings.Doubled(f) + "\"" + rest), "", false) == Fields(rest, f, false)
  {
    var inner := Strings.Doubled(f) + "\"" + rest;
    assert ("\"" + inner)[1..] == inner && "" + f == f;
    ReadDoubled(f, rest, "");
  }

  lemma {:induction false} ReadCell(c: Cell, rest: string)
    requires c.quoted || MayBeBare(c.text)
    requires rest == "" || rest[0] != '"'
    ensures Fields(Written(c.text, c.quoted) + rest, "", false) == Fields(rest, c.text, false)
  {
    if c.quoted {
      assert Written(c.text, true) + rest == "\"" + (Strings.Doubled(c.text) + "\"" + rest);
      ReadQuotedCell(c.text, rest);
    } else {
      assert "" + c.text == c.text;
      ReadBare(c.text, rest, "");
    }
  }

  function Trimmed(cells: seq<Cell>): (r: seq<string>)
    ensures |r| == |cells| && forall i :: 0 <= i < |cells| ==> r[i] == Trim(cells[i].text)
  {
    if cells == [] then [] else [Trim(cells[0].text)] + Trimmed(cells[1..])
  }

  function Texts(cells: seq<Cell>): seq<string>
  {
    Map(cells, (c: Cell) => c.text)
  }

  /** A cell followed by a comma is pushed and the parser starts afresh. */
  lemma {:induction false} ReadCellComma(c: Cell, rest: string)
    requires c.quoted || MayBeBare(c.text)
    ensures Fields(Written(c.text, c.quoted) + ("," + rest), "", false) == [Trim(c.text)] + Fields(rest, "", false)
  {
    ReadCell(c, "," + rest);
    assert ("," + rest)[1..] == rest;
  }

  /** What may stand between the record and the line feed. */
  function Return(cr: bool): string
  {
    if cr then "\r" else ""
  }

  lemma ReadLastCell(c: Cell, cr: bool)
    requires c.quoted || MayBeBare(c.text)
    ensures Fields(Written(c.text, c.quoted) + Return(cr), "", false) == [Trim(c.text)]
  {
    ReadCell(c, Return(cr));
    if cr {
      assert "\r"[1..] == "";
      Strings.TrimAppend(c.text, '\r', IsSpace);
    }
  }

  lemma ThreePieces(a: string, b: string, c: string, d: string)
    ensures a + b + c + d == a + (b + (c + d))
  {
  }

  /** Any record, however its fields are quoted, parses to its fields with the surrounding
      whitespace taken off. */
  lemma {:induction false} ParseOfRecord(cells: seq<Cell>, cr: bool)
    requires cells != [] && Writable(cells)
    ensures Fields(Record(cells) + Return(cr), "", false) == Trimmed(cells)
  {
    var c := cells[0];
    if |cells| == 1 {
      ReadLastCell(c, cr);
    } else {
      var rest := Record(cells[1..]);
      ReadCellComma(c, rest + Return(cr));
      ThreePieces(Written(c.text, c.quoted), ",", rest, Return(cr));
      ParseOfRecord(cells[1..], cr);
    }
  }

  /** So parsing inverts quoting exactly for the records none of whose fields starts or ends with
      whitespace. */
  lemma {:induction false} RoundTripIffTight(cells: seq<Cell>)
    requires cells != [] && Writable(cells)
    ensures Fields(Record(cells), "", false) == Texts(cells) <==>
      forall i :: 0 <= i < |cells| ==> Tight(cells[i].text)
  {
    ParseOfRecord(cells, false);
    assert Record(cells) + "" == Record(cells);
    TrimmedIffTight(cells);
  }

  lemma {:induction false} TrimmedIffTight(cells: seq<Cell>)
    ensures Trimmed(cells) == Texts(cells) <==> forall i :: 0 <= i < |cells| ==> Tight(cells[i].text)
  {
    forall i | 0 <= i < |cells| ensures Trimmed(cells)[i] == Texts(cells)[i] <==> Tight(cells[i].text) {
      Strings.TrimFixesTight(cells[i].text, IsSpace);
    }
    if forall i :: 0 <= i < |cells| ==> Tight(cells[i].text) {
      assert Trimmed(cells) == Texts(cells);
    }
  }

  // ---- Whole files ----------------------------------------------------------------------

  function NonBlank(lines: seq<string>): seq<string>
  {
    if lines == [] then []
    else (if Trim(lines[0]) == "" then [] else [lines[0]]) + NonBlank(lines[1..])
  }

  function ParseLines(lines: seq<string>): seq<seq<string>>
  {
    if lines == [] then [] else [Fields(lines[0], "", false)] + ParseLines(lines[1..])
  }

  /** The importer's reading of a file: split at newlines, drop blank lines, parse the rest. */
  function ParseFile(text: string): seq<seq<string>>
  {
    ParseLines(NonBlank(Strings.Split(text, '\n')))
  }

  /** A record and whether a carriage return comes before its line feed. */
  datatype Line = Line(cells: seq<Cell>, cr: bool)

  function LineText(l: Line): string
  {
    Record(l.cells) + Return(l.cr)
  }

  /** The lines of a file; the last one may go without a line feed. */
  function FileText(lines: seq<Line>, last: bool): string
  {
    if lines == [] then ""
    else LineText(lines[0]) + ((if |lines| > 1 || last then "\n" else "") + FileText(lines[1..], last))
  }

  function LineTexts(lines: seq<Line>): seq<string>
  {
    if lines == [] then [] else [LineText(lines[0])] + LineTexts(lines[1..])
  }

  function AllTexts(lines: seq<Line>): (r: seq<seq<string>>)
    ensures |r| == |lines| && forall i :: 0 <= i < |lines| ==> r[i] == Texts(lines[i].cells)
  {
    if lines == [] then [] else [Texts(lines[0].cells)] + AllTexts(lines[1..])
  }

  predicate OneLine(cells: seq<Cell>)
  {
    forall i :: 0 <= i < |cells| ==> '\n' !in cells[i].text
  }

  lemma {:induction false} RecordOnOneLine(cells: seq<Cell>)
    requires OneLine(cells)
    ensures '\n' !in Record(cells)
  {
    if cells != [] {
      DoubledKeepsLine(cells[0].text);
      RecordOnOneLine(cells[1..]);
    }
  }

  lemma {:induction false} DoubledKeepsLine(f: string)
    requires '\n' !in f
    ensures '\n' !in Strings.Doubled(f)
  {
    if f != "" {
      DoubledKeepsLine(f[1..]);
    }
  }

  /** Records without line breaks inside are the lines of their file. */
  lemma {:induction false} SplitsIntoLines(lines: seq<Line>, last: bool)
    requires lines != [] && forall i :: 0 <= i < |lines| ==> OneLine(lines[i].cells)
    ensures Strings.Split(FileText(lines, last), '\n') == LineTexts(lines) + if last then [""] else []
  {
    RecordOnOneLine(lines[0].cells);
    if |lines| > 1 {
      SplitsIntoLines(lines[1..], last);
      FirstLine(LineText(lines[0]), FileText(lines[1..], last));
      Associates([LineText(lines[0])], LineTexts(lines[1..]), if last then [""] else []);
    } else {
      assert lines[1..] == [];
      FirstLine(LineText(lines[0]), "");
      assert LineTexts(lines) == [LineText(lines[0])];
    }
  }

  lemma {:induction false} FirstLine(line: string, rest: string)
    requires '\n' !in line
    ensures Strings.Split(line + ("\n" + rest), '\n') == [line] + Strings.Split(rest, '\n')
    ensures Strings.Split(line + ("" + ""), '\n') == [line]
  {
    Strings.SplitFirst(line, '\n', rest);
    assert line + ("\n" + rest) == line + ['\n'] + rest;
    assert line + ("" + "") == line;
  }

  // ---- What comes back ------------------------------------------------------------------

  lemma {:induction false} FieldsFrom(rest: string, current: string, inQuotes: bool)
    requires '\n' !in rest && '\n' !in current
    ensures forall i :: 0 <= i < |Fields(rest, current, inQuotes)| ==> '\n' !in Fields(rest, current, inQuotes)[i]
    decreases |rest|
  {
    Strings.TrimFrom(current, '\n', IsSpace);
    if rest == "" {
    } else if rest[0] == '"' {
      if inQuotes && |rest| > 1 && rest[1] == '"' {
        FieldsFrom(rest[2..], current + "\"", inQuotes);
      } else {
        FieldsFrom(rest[1..], current, !inQuotes);
      }
    } else if rest[0] == ',' && !inQuotes {
      FieldsFrom(rest[1..], "", inQuotes);
    } else {
      FieldsFrom(rest[1..], current + [rest[0]], inQuotes);
    }
  }

  ghost predicate NoBreaks(record: seq<string>)
  {
    forall i :: 0 <= i < |record| ==> '\n' !in record[i]
  }

  lemma {:induction false} NoBreaksRead(lines: seq<string>)
    requires forall i :: 0 <= i < |lines| ==> '\n' !in lines[i]
    ensures forall i :: 0 <= i < |ParseLines(NonBlank(lines))| ==> NoBreaks(ParseLines(NonBlank(lines))[i])
  {
    if lines != [] {
      FieldsFrom(lines[0], "", false);
      NoBreaksRead(lines[1..]);
      if Trim(lines[0]) != "" {
        assert NonBlank(lines)[1..] == NonBlank(lines[1..]);
      } else {
        assert NonBlank(lines) == NonBlank(lines[1..]);
      }
    }
  }

  predicate Blank(l: Line)
  {
    Trim(LineText(l)) == ""
  }

  function Visible(lines: seq<Line>): (r: seq<Line>)
    ensures |r| <= |lines|
    ensures |r| == |lines| <==> forall i :: 0 <= i < |lines| ==> !Blank(lines[i])
    ensures |r| == |lines| ==> r == lines
  {
    if lines == [] then [] else (if Blank(lines[0]) then [] else [lines[0]]) + Visible(lines[1..])
  }

  function AllTrimmed(lines: seq<Line>): (r: seq<seq<string>>)
    ensures |r| == |lines| && forall i :: 0 <= i < |lines| ==> r[i] == Trimmed(lines[i].cells)
  {
    if lines == [] then [] else [Trimmed(lines[0].cells)] + AllTrimmed(lines[1..])
  }

  lemma {:induction false} EmptyLastLine(lines: seq<string>)
    ensures NonBlank(lines + [""]) == NonBlank(lines)
  {
    if lines == [] {
      assert [] + [""] == [""] && [""][1..] == [];
    } else {
      EmptyLastLine(lines[1..]);
      assert (lines + [""])[1..] == lines[1..] + [""];
    }
  }

  lemma {:induction false} FirstParsed(line: string, rest: seq<string>)
    ensures ParseLines(NonBlank([line] + rest)) ==
      (if Trim(line) == "" then [] else [Fields(line, "", false)]) + ParseLines(NonBlank(rest))
  {
    assert ([line] + rest)[1..] == rest;
    if Trim(line) != "" {
      assert ([line] + NonBlank(rest))[1..] == NonBlank(rest);
    } else {
      assert NonBlank([line] + rest) == NonBlank(rest);
    }
  }

  lemma {:induction false} FirstTrimmed(l: Line, rest: seq<Line>)
    ensures AllTrimmed([l] + rest) == [Trimmed(l.cells)] + AllTrimmed(rest)
  {
    assert ([l] + rest)[1..] == rest;
  }

  lemma {:induction false} LinesParse(lines: seq<Line>)
    requires forall i :: 0 <= i < |lines| ==> lines[i].cells != [] && Writable(lines[i].cells)
    ensures ParseLines(NonBlank(LineTexts(lines))) == AllTrimmed(Visible(lines))
  {
    if lines != [] {
      LinesParse(lines[1..]);
      ParseOfRecord(lines[0].cells, lines[0].cr);
      FirstParsed(LineText(lines[0]), LineTexts(lines[1..]));
      FirstTrimmed(lines[0], Visible(lines[1..]));
    }
  }

  /** A row the importer can read back: one line, tight fields, and not an empty-looking line. */
  predicate Importable(cells: seq<Cell>)
  {
    && cells != [] && OneLine(cells)
    && (forall i :: 0 <= i < |cells| ==> Tight(cells[i].text))
    && (|cells| > 1 || cells[0].quoted || cells[0].text != "")
  }

  lemma BlankIff(l: Line)
    requires l.cells != [] && forall i :: 0 <= i < |l.cells| ==> Tight(l.cells[i].text)
    ensures Blank(l) <==> |l.cells| == 1 && !l.cells[0].quoted && l.cells[0].text == ""
  {
    var r, first := LineText(l), Written(l.cells[0].text, l.cells[0].quoted);
    if l.cells[0].quoted || l.cells[0].text != "" {
      assert r[0] == first[0];
      Strings.VisibleIsNotBlank(r, 0, IsSpace);
    } else if |l.cells| > 1 {
      assert r[0] == ',';
      Strings.VisibleIsNotBlank(r, 0, IsSpace);
    } else {
      assert r == "" + Return(l.cr);
      Strings.TrimAppend("", '\r', IsSpace);
      assert "" + ['\r'] == "\r";
    }
  }

  lemma {:induction false} LineBreakIsLost(lines: seq<Line>, text: string, k: nat)
    requires k < |lines| && !OneLine(lines[k].cells)
    ensures ParseFile(text) != AllTexts(lines)
  {
    Strings.SplitHasNoSep(text, '\n');
    NoBreaksRead(Strings.Split(text, '\n'));
    var i :| 0 <= i < |lines[k].cells| && '\n' in lines[k].cells[i].text;
    assert AllTexts(lines)[k][i] == lines[k].cells[i].text;
    assert !NoBreaks(AllTexts(lines)[k]);
  }

  /** A file written by the RFC, with either line end at each line and an optional last one, is read
      back as the same table exactly when no field has a line break inside or whitespace at an end,
      and no record is a single bare empty field. */
  lemma {:induction false} FileRoundTripIff(lines: seq<Line>, last: bool)
    requires lines != [] && forall i :: 0 <= i < |lines| ==> lines[i].cells != [] && Writable(lines[i].cells)
    ensures ParseFile(FileText(lines, last)) == AllTexts(lines) <==>
      forall i :: 0 <= i < |lines| ==> Importable(lines[i].cells)
  {
    if k :| 0 <= k < |lines| && !OneLine(lines[k].cells) {
      LineBreakIsLost(lines, FileText(lines, last), k);
    } else {
      SplitsIntoLines(lines, last);
      EmptyLastLine(LineTexts(lines));
      assert LineTexts(lines) + [] == LineTexts(lines);
      LinesParse(lines);
      SameIffImportable(lines);
    }
  }

  lemma {:induction false} SameIffImportable(lines: seq<Line>)
    requires forall i :: 0 <= i < |lines| ==> lines[i].cells != [] && OneLine(lines[i].cells)
    ensures AllTrimmed(Visible(lines)) == AllTexts(lines) <==> forall i :: 0 <= i < |lines| ==> Importable(lines[i].cells)
  {
    forall i | 0 <= i < |lines|
      ensures Importable(lines[i].cells) <==> !Blank(lines[i]) && Trimmed(lines[i].cells) == Texts(lines[i].cells)
    {
      TrimmedIffTight(lines[i].cells);
      if forall j :: 0 <= j < |lines[i].cells| ==> Tight(lines[i].cells[j].text) {
        BlankIff(lines[i]);
      }
    }
    if forall i :: 0 <= i < |lines| ==> Importable(lines[i].cells) {
      assert Visible(lines) == lines;
      assert AllTrimmed(lines) == AllTexts(lines);
    }
  }
}
