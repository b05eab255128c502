/**
 * The reader objects: `CsvReader` with its row assembler (`readNext`), its row sequence,
 * its header layer and `findDuplicate`, over a line source that hands out the input's
 * lines one `readLine` at a time.
 */
module CsvReading {
  import opened Text
  import opened RowAssembly
  import opened HeaderRules

  /** The buffered reader as readNext uses it: `readLine` hands out lines without their terminators. */
  class LineInput {
    const lines: seq<string>
    var pos: nat

    ghost predicate Valid()
      reads this
    {
      pos <= |lines|
    }

    /** The lines not read yet. */
    ghost function Remaining(): seq<string>
      reads this
      requires Valid()
    {
      lines[pos..]
    }

    constructor (lines: seq<string>)
      ensures Valid() && this.lines == lines && pos == 0
    {
      this.lines := lines;
      pos := 0;
    }

    /** The next line, or None at the end of the input. */
    method ReadLine() returns (line: Option<string>)
      requires Valid()
      modifies this
      ensures Valid()
      ensures old(pos) < |lines| ==> line == Some(lines[old(pos)]) && pos == old(pos) + 1
      ensures old(pos) == |lines| ==> line == None && pos == old(pos)
    {
      if pos == |lines| {
        return None;
      }
      line := Some(lines[pos]);
      pos := pos + 1;
    }
  }

  class CsvReader {
    const settings: ReaderSettings

    constructor (settings: ReaderSettings)
      ensures this.settings == settings
    {
      this.settings := settings;
    }

    /**
     * readNext as written: pulls lines until the parser returns a row, carrying the text
     * of a still-open quoted field over as leftover; at the end of the input, no row when
     * the leftover is empty and a malformed-leftover error otherwise.
     */
    method ReadNext(br: LineInput) returns (r: Result<Option<Row>>)
      requires br.Valid()
      modifies br
      ensures br.Valid()
      ensures var p := NextRow(settings, old(br.Remaining()), "");
              r == p.result && br.pos == old(br.pos) + p.consumed
    {
      var leftOver := "";
      while true
        invariant br.Valid() && old(br.pos) <= br.pos
        invariant var p := NextRow(settings, old(br.Remaining()), "");
                  var q := NextRow(settings, br.Remaining(), leftOver);
                  q.result == p.result && br.pos + q.consumed == old(br.pos) + p.consumed
        decreases |br.lines| - br.pos
      {
        ghost var rest := br.Remaining();
        var nextLine := br.ReadLine();
        if nextLine.None? {
          if leftOver != "" {
            return Fail(MalformedLeftOver(leftOver));
          }
          return Ok(None);
        }
        var line := nextLine.value;
        assert rest[0] == line && br.Remaining() == rest[1..];
        var value := if leftOver == "" then line + settings.lineSeparator
                     else leftOver + settings.lineSeparator + line + settings.lineSeparator;
        var parsedLine := settings.parser(value, settings.config.quoteChar, settings.config.delimiter, settings.config.escapeChar);
        if parsedLine.Some? {
          return Ok(parsedLine);
        }
        leftOver := leftOver + line;
      }
    }

    /**
     * readNext with the retry corrected: the leftover carried into the next attempt is the
     * whole text the parser was just handed, so no line break is lost.
     */
    method ReadNextRetained(br: LineInput) returns (r: Result<Option<Row>>)
      requires br.Valid()
      modifies br
      ensures br.Valid()
      ensures var p := NextRowRetained(settings, old(br.Remaining()), "");
              r == p.result && br.pos == old(br.pos) + p.consumed
    {
      var leftOver := "";
      while true
        invariant br.Valid() && old(br.pos) <= br.pos
        invariant var p := NextRowRetained(settings, old(br.Remaining()), "");
                  var q := NextRowRetained(settings, br.Remaining(), leftOver);
                  q.result == p.result && br.pos + q.consumed == old(br.pos) + p.consumed
        decreases |br.lines| - br.pos
      {
        ghost var rest := br.Remaining();
        var nextLine := br.ReadLine();
        if nextLine.None? {
          if leftOver != "" {
            return Fail(MalformedLeftOver(leftOver));
          }
          return Ok(None);
        }
        var line := nextLine.value;
        assert rest[0] == line && br.Remaining() == rest[1..];
        var value := leftOver + line + settings.lineSeparator;
        var parsedLine := settings.parser(value, settings.config.quoteChar, settings.config.delimiter, settings.config.escapeChar);
        if parsedLine.Some? {
          return Ok(parsedLine);
        }
        leftOver := value;
      }
    }

    /** One readNext call by the chosen assembler. */
    method PullRow(br: LineInput, a: Assembler) returns (r: Result<Option<Row>>)
      requires br.Valid()
      modifies br
      ensures br.Valid()
      ensures var p := ReadRow(settings, a, old(br.Remaining()));
              r == p.result && br.pos == old(br.pos) + p.consumed
    {
      match a
      case AsWritten =>
        r := ReadNext(br);
      case Retained =>
        r := ReadNextRetained(br);
    }

    /**
     * All the rows of the input, pulled one readNext at a time until it reports the end
     * (`read`, through `readWithBufferedReader`).
     */
    method ReadAll(br: LineInput, a: Assembler) returns (r: Result<seq<Row>>)
      requires br.Valid()
      modifies br
      ensures br.Valid()
      ensures r == AllRows(settings, a, old(br.Remaining()))
      ensures br.Remaining() == []
    {
      var rows: seq<Row> := [];
      PrependNil(AllRows(settings, a, br.Remaining()));
      while true
        invariant br.Valid()
        invariant AllRows(settings, a, old(br.Remaining())) == Prepend(rows, AllRows(settings, a, br.Remaining()))
        decreases |br.lines| - br.pos
      {
        ghost var rest := br.Remaining();
        AllRowsStep(settings, a, rows, rest);
        var next := PullRow(br, a);
        ghost var p := ReadRow(settings, a, rest);
        assert br.Remaining() == rest[p.consumed..];
        match next
        case Fail(e) =>
          assert !p.HasRow();
          return Fail(e);
        case Ok(None) =>
          return Ok(rows);
        case Ok(Some(row)) =>
          rows := rows + [row];
      }
    }

    /**
     * readWithHeader: the first row is the header; a duplicated name fails; every later
     * row must have as many fields as the header and becomes a name-to-field map.
     */
    method ReadWithHeader(br: LineInput, a: Assembler) returns (r: Result<seq<map<string, string>>>)
      requires br.Valid()
      modifies br
      ensures br.Valid()
      ensures r == WithHeader(settings, a, old(br.Remaining()))
      ensures br.pos == old(br.pos) + WithHeaderConsumed(settings, a, old(br.Remaining()))
    {
      ghost var all := br.Remaining();
      var headers := PullRow(br, a);
      ghost var h := ReadRow(settings, a, all);
      assert br.Remaining() == all[h.consumed..];
      match headers
      case Fail(e) =>
        return Fail(e);
      case Ok(None) =>
        return Ok([]);
      case Ok(Some(header)) =>
        var duplicated := FindDuplicate(header);
        if duplicated.Some? {
          return Fail(DuplicatedHeader(duplicated.value));
        }
        r := ReadDataRows(br, a, header);
    }

    /** The rows after the header, each checked against the header's size and zipped with it. */
    method ReadDataRows(br: LineInput, a: Assembler, header: Row) returns (r: Result<seq<map<string, string>>>)
      requires br.Valid()
      modifies br
      ensures br.Valid()
      ensures r == ZipRows(settings, a, header, old(br.Remaining()))
      ensures br.pos == old(br.pos) + ZipRowsConsumed(settings, a, header, old(br.Remaining()))
    {
      var maps: seq<map<string, string>> := [];
      PrependNil(ZipRows(settings, a, header, br.Remaining()));
      while true
        invariant br.Valid()
        invariant ZipRows(settings, a, header, old(br.Remaining())) == Prepend(maps, ZipRows(settings, a, header, br.Remaining()))
        invariant old(br.pos) <= br.pos
        invariant ZipRowsConsumed(settings, a, header, old(br.Remaining())) == br.pos - old(br.pos) + ZipRowsConsumed(settings, a, header, br.Remaining())
        decreases |br.lines| - br.pos
      {
        ghost var rest := br.Remaining();
        ZipRowsStep(settings, a, header, maps, rest);
        var next := PullRow(br, a);
        ghost var p := ReadRow(settings, a, rest);
        assert br.Remaining() == rest[p.consumed..];
        match next
        case Fail(e) =>
          return Fail(e);
        case Ok(None) =>
          return Ok(maps);
        case Ok(Some(fields)) =>
          if |header| != |fields| {
            return Fail(FieldCountMismatch(|fields|, |header|));
          }
          maps := maps + [ZipToMap(header, fields)];
      }
    }

    /** The first name that equals an earlier one, scanning left to right; None when all differ. */
    method FindDuplicate(headers: seq<string>) returns (d: Option<string>)
      ensures d == FirstDuplicate(headers)
      ensures d == None <==> Distinct(headers)
    {
      var seen: set<string> := {};
      for i := 0 to |headers|
        invariant forall x :: x in seen <==> x in headers[..i]
        invariant FirstDuplicate(headers[..i]) == None
      {
        var h := headers[i];
        assert headers[..i + 1] == headers[..i] + [h];
        if h in seen {
          FirstDuplicateExtends(headers, i + 1);
          FirstDuplicateSpec(headers);
          return Some(h);
        }
        seen := seen + {h};
      }
      assert headers[..|headers|] == headers;
      FirstDuplicateSpec(headers);
      return None;
    }
  }
}
