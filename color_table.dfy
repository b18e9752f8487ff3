/**
 * The colour-table parser `get_colors` (colorizer.py:39-45): every line loses all its spaces and
 * newlines, is split at every `:` and must give exactly two parts, a token name and a colour.
 * Later lines overwrite earlier ones with the same name.
 */
module ColorTable {
  import opened Wrappers
  import opened PyStr

  /** The `ValueError` raised by `lhs, rhs = line.split(":")` when the split does not give two parts. */
  datatype ColorLineError = UnpackError(line: string, parts: nat)

  /** `line.replace(" ", "").replace("\n", "")`. */
  function CleanColorLine(line: string): string {
    Replace(Replace(line, ' ', ""), '\n', "")
  }

  /** The name/colour pair one line contributes, or the unpacking error it raises. */
  function ColorEntry(line: string): Result<(string, string), ColorLineError> {
    var parts := Split(CleanColorLine(line), ':');
    if |parts| == 2 then Success((parts[0], parts[1])) else Failure(UnpackError(line, |parts|))
  }

  /** The reference for cleaning: `s` with its spaces and newlines removed, every other character kept in order. */
  function DeleteBlanks(s: string): string {
    if s == [] then []
    else (if s[0] == ' ' || s[0] == '\n' then [] else [s[0]]) + DeleteBlanks(s[1..])
  }

  /**
   * Cleaning deletes exactly the spaces and newlines and keeps every other character, tabs and
   * carriage returns included, in order and as often as it occurs.
   */
  lemma {:induction false} CleanColorLineDeletes(line: string)
    ensures CleanColorLine(line) == DeleteBlanks(line)
    ensures forall c :: c in CleanColorLine(line) <==> c in line && c != ' ' && c != '\n'
  {
    if line != [] {
      var head := if line[0] == ' ' then "" else [line[0]];
      assert Replace(line, ' ', "") == head + Replace(line[1..], ' ', "");
      ReplaceConcat(head, Replace(line[1..], ' ', ""), '\n', "");
      CleanColorLineDeletes(line[1..]);
    }
  }

  /**
   * A line gives a pair exactly when its cleaned text holds one `:`; the pair is the text on either side
   * of it. Otherwise (no colon, two colons, an empty line) the unpacking error names how many parts the
   * split gave.
   */
  lemma ColorEntrySplitsAtTheColon(line: string)
    ensures ColorEntry(line).Success? <==> CountChar(CleanColorLine(line), ':') == 1
    ensures ColorEntry(line).Success? ==>
      var (name, color) := ColorEntry(line).value;
      && name + ":" + color == CleanColorLine(line)
      && ':' !in name && ':' !in color
    ensures ColorEntry(line).Failure? ==>
      ColorEntry(line).error == UnpackError(line, CountChar(CleanColorLine(line), ':') + 1)
  {
    var parts := Split(CleanColorLine(line), ':');
    if |parts| == 2 {
      assert Join(parts, ':') == parts[0] + ":" + parts[1];
    }
  }

  /** The table built from `lines` when the loop starts with the table `colors`. */
  function ParseColorsFrom(lines: seq<string>, colors: map<string, string>): Result<map<string, string>, ColorLineError>
  {
    if lines == [] then Success(colors)
    else match ColorEntry(lines[0])
      case Failure(e) => Failure(e)
      case Success((name, color)) => ParseColorsFrom(lines[1..], colors[name := color])
  }

  function ParseColors(lines: seq<string>): Result<map<string, string>, ColorLineError> {
    ParseColorsFrom(lines, map[])
  }

  /** `get_colors`: fills the table line by line and stops at the first malformed line. */
  method GetColors(inputLines: seq<string>) returns (r: Result<map<string, string>, ColorLineError>)
    ensures r == ParseColors(inputLines)
  {
    var colors := map[];
    for i := 0 to |inputLines|
      invariant ParseColorsFrom(inputLines[i..], colors) == ParseColors(inputLines)
    {
      assert inputLines[i..][1..] == inputLines[i + 1..];
      var line := CleanColorLine(inputLines[i]);
      var parts := Split(line, ':');
      if |parts| != 2 {
        return Failure(UnpackError(inputLines[i], |parts|));
      }
      var lhs, rhs := parts[0], parts[1];
      colors := colors[lhs := rhs];
    }
    assert inputLines[|inputLines|..] == [];
    return Success(colors);
  }

  /** The pairs of a table whose lines all parse, in line order. */
  function Entries(lines: seq<string>): seq<(string, string)>
    requires forall i :: 0 <= i < |lines| ==> ColorEntry(lines[i]).Success?
  {
    if lines == [] then [] else [ColorEntry(lines[0]).value] + Entries(lines[1..])
  }

  /** The colour of the LAST pair named `name`, if any: the reference definition of "later lines win". */
  function LastColor(entries: seq<(string, string)>, name: string): Option<string> {
    if entries == [] then None
    else
      var later := LastColor(entries[1..], name);
      if later.Some? then later
      else if entries[0].0 == name then Some(entries[0].1)
      else None
  }

  function Lookup(colors: map<string, string>, name: string): Option<string> {
    if name in colors then Some(colors[name]) else None
  }

  /** Parsing succeeds exactly when every line splits into two parts. */
  lemma {:induction false} ParseColorsSucceeds(lines: seq<string>, colors: map<string, string>)
    ensures ParseColorsFrom(lines, colors).Success? <==> forall i :: 0 <= i < |lines| ==> ColorEntry(lines[i]).Success?
  {
    if lines != [] {
      match ColorEntry(lines[0])
      case Failure(e) =>
      case Success((name, color)) =>
        ParseColorsSucceeds(lines[1..], colors[name := color]);
        assert forall i :: 1 <= i < |lines| ==> lines[i] == lines[1..][i - 1];
    }
  }

  /** Reading `prefix + rest` is reading `prefix`, then reading `rest` into the table obtained. */
  lemma {:induction false} ParseColorsConcat(prefix: seq<string>, rest: seq<string>, colors: map<string, string>)
    ensures ParseColorsFrom(prefix + rest, colors) ==
      match ParseColorsFrom(prefix, colors)
      case Failure(e) => Failure(e)
      case Success(table) => ParseColorsFrom(rest, table)
  {
    if prefix == [] {
      assert prefix + rest == rest;
    } else {
      assert (prefix + rest)[0] == prefix[0] && (prefix + rest)[1..] == prefix[1..] + rest;
      match ColorEntry(prefix[0])
      case Failure(e) =>
      case Success((name, color)) => ParseColorsConcat(prefix[1..], rest, colors[name := color]);
    }
  }

  /** The error raised is the first malformed line's, whatever follows it. */
  lemma FirstMalformedLineFails(lines: seq<string>, i: nat)
    requires i < |lines| && ColorEntry(lines[i]).Failure?
    requires ParseColors(lines[..i]).Success?
    ensures ParseColors(lines) == Failure(ColorEntry(lines[i]).error)
  {
    assert lines == lines[..i] + lines[i..];
    ParseColorsConcat(lines[..i], lines[i..], map[]);
  }

  /** On success, each name maps to the colour of the last line naming it, and names no line gives keep their value in `colors`. */
  lemma {:induction false} ParseColorsLastWins(lines: seq<string>, colors: map<string, string>, name: string)
    requires ParseColorsFrom(lines, colors).Success?
    ensures forall i :: 0 <= i < |lines| ==> ColorEntry(lines[i]).Success?
    ensures Lookup(ParseColorsFrom(lines, colors).value, name)
      == if LastColor(Entries(lines), name).Some? then LastColor(Entries(lines), name) else Lookup(colors, name)
  {
    ParseColorsSucceeds(lines, colors);
    if lines != [] {
      var (n, c) := ColorEntry(lines[0]).value;
      assert forall i :: 1 <= i < |lines| ==> lines[i] == lines[1..][i - 1];
      ParseColorsLastWins(lines[1..], colors[n := c], name);
      assert Entries(lines)[1..] == Entries(lines[1..]);
    }
  }

  /** A table read from scratch: every name maps to the colour of the last line that names it. */
  lemma ColorTableIsLastEntry(lines: seq<string>, name: string)
    requires ParseColors(lines).Success?
    ensures forall i :: 0 <= i < |lines| ==> ColorEntry(lines[i]).Success?
    ensures Lookup(ParseColors(lines).value, name) == LastColor(Entries(lines), name)
  {
    ParseColorsLastWins(lines, map[], name);
  }

  /** A line whose cleaned text is `name:color`, with no other colon, gives exactly that pair. */
  lemma ColorEntryOf(line: string, name: string, color: string)
    requires CleanColorLine(line) == name + ":" + color
    requires ':' !in name && ':' !in color
    ensures ColorEntry(line) == Success((name, color))
  {
    assert Join([name, color], ':') == name + ":" + color;
    SplitJoin([name, color], ':');
  }

  /** Spaces vanish wherever they stand: `"a : 1"` names `a` with colour `1`. */
  lemma ColorEntryExample()
    ensures ColorEntry("a : 1") == Success(("a", "1"))
  {
    DeleteSpacesExample();
    DeleteNewlinesExample();
    ColorEntryOf("a : 1", "a", "1");
  }

  lemma DeleteSpacesExample()
    ensures Replace("a : 1", ' ', "") == "a:1"
  {
  }

  lemma DeleteNewlinesExample()
    ensures Replace("a:1", '\n', "") == "a" + ":" + "1"
  {
  }
}
