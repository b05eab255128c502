/**
 * Row assembly (`CsvReader.readNext`) as functions: one pull takes lines from the reader
 * until the row parser, handed the text gathered so far, returns a row, or the reader
 * runs dry. The parser itself is a parameter: it answers a row, or None while a quoted
 * field is still open.
 */
module RowAssembly {
  import opened Text

  type Row = seq<string>

  /** The quote, delimiter and escape characters the reader passes to the parser unchanged. */
  datatype ReaderConfig = ReaderConfig(quoteChar: char, delimiter: char, escapeChar: char)

  /** The row parser: a complete row for the given text, or None while a quote is still open. */
  type RowParser = (string, char, char, char) -> Option<Row>

  /** What a reader works with: its configuration, its parser and the platform line separator. */
  datatype ReaderSettings = ReaderSettings(config: ReaderConfig, parser: RowParser, lineSeparator: string)

  /** The reasons a read fails (all raised as MalformedCSVException). */
  datatype CsvError =
    | MalformedLeftOver(leftOver: string)
    | DuplicatedHeader(name: string)
    | FieldCountMismatch(fields: nat, headers: nat)

  datatype Result<T> = Ok(value: T) | Fail(error: CsvError)

  /** The outcome of one pull, and how many lines it took from the reader. */
  datatype Pull = Pull(result: Result<Option<Row>>, consumed: nat)
  {
    predicate HasRow()
    {
      result.Ok? && result.value.Some?
    }
  }

  function ParseRow(s: ReaderSettings, text: string): Option<Row>
  {
    s.parser(text, s.config.quoteChar, s.config.delimiter, s.config.escapeChar)
  }

  /** `xs` in front of a successful result; a failure stays as it is. */
  function Prepend<T>(xs: seq<T>, r: Result<seq<T>>): Result<seq<T>>
  {
    match r
    case Ok(more) => Ok(xs + more)
    case Fail(e) => Fail(e)
  }

  lemma PrependNil<T>(r: Result<seq<T>>)
    ensures Prepend([], r) == r
  {
    if r.Ok? {
      assert [] + r.value == r.value;
    }
  }

  lemma PrependSnoc<T>(xs: seq<T>, x: T, r: Result<seq<T>>)
    ensures Prepend(xs, Prepend([x], r)) == Prepend(xs + [x], r)
  {
    if r.Ok? {
      assert xs + ([x] + r.value) == (xs + [x]) + r.value;
    }
  }

  // ---------------------------------------------------------------------------
  // readNext as written

  /** The text handed to the parser: the new line, after the leftover when there is one, each followed by the separator. */
  function ParserInput(s: ReaderSettings, leftOver: string, nextLine: string): (r: string)
    ensures leftOver != "" ==> |r| >= |leftOver| && r[..|leftOver|] == leftOver
    ensures |r| >= |nextLine + s.lineSeparator| && r[|r| - |nextLine + s.lineSeparator|..] == nextLine + s.lineSeparator
  {
    if leftOver == "" then nextLine + s.lineSeparator
    else leftOver + s.lineSeparator + nextLine + s.lineSeparator
  }

  /**
   * One call of readNext on the lines still to be read, with the leftover carried so far.
   * After a None from the parser it retries with the leftover and the line glued together.
   */
  function NextRow(s: ReaderSettings, lines: seq<string>, leftOver: string): (p: Pull)
    ensures p.consumed <= |lines|
    ensures p.HasRow() ==> 1 <= p.consumed
    ensures !p.HasRow() ==> p.consumed == |lines|
    decreases |lines|
  {
    if |lines| == 0 then
      if leftOver != "" then Pull(Fail(MalformedLeftOver(leftOver)), 0) else Pull(Ok(None), 0)
    else
      match ParseRow(s, ParserInput(s, leftOver, lines[0]))
      case Some(row) => Pull(Ok(Some(row)), 1)
      case None =>
        var p := NextRow(s, lines[1..], leftOver + lines[0]);
        p.(consumed := p.consumed + 1)
  }

  /** The leftover once the first `k` lines all left a quote open: they are glued with nothing between them. */
  function LeftOverAfter(leftOver: string, lines: seq<string>, k: nat): string
    requires k <= |lines|
  {
    leftOver + Concat(lines[..k])
  }

  /** The text the parser is handed on the attempt that reads line `k`. */
  function Attempt(s: ReaderSettings, lines: seq<string>, leftOver: string, k: nat): string
    requires k < |lines|
  {
    ParserInput(s, LeftOverAfter(leftOver, lines, k), lines[k])
  }

  /** The parser answered None on each of the first `k` attempts. */
  predicate StillOpen(s: ReaderSettings, lines: seq<string>, leftOver: string, k: nat)
    requires k <= |lines|
  {
    forall j :: 0 <= j < k ==> ParseRow(s, Attempt(s, lines, leftOver, j)) == None
  }

  lemma AttemptShift(s: ReaderSettings, lines: seq<string>, leftOver: string, j: nat)
    requires j + 1 <= |lines|
    ensures LeftOverAfter(leftOver + lines[0], lines[1..], j) == LeftOverAfter(leftOver, lines, j + 1)
    ensures j + 1 < |lines| ==> Attempt(s, lines[1..], leftOver + lines[0], j) == Attempt(s, lines, leftOver, j + 1)
  {
    assert lines[..j + 1][1..] == lines[1..][..j];
  }

  lemma LeftOverAfterNone(leftOver: string, lines: seq<string>)
    ensures LeftOverAfter(leftOver, lines, 0) == leftOver
  {
    assert lines[..0] == [];
    assert leftOver + "" == leftOver;
  }

  /**
   * What one readNext call does, without the recursion: it returns the row of the first
   * attempt the parser accepts, having consumed exactly the lines up to it; if the parser
   * accepts none, it reads every line and ends with no row when the final leftover is
   * empty, and with a malformed-leftover error carrying that leftover otherwise.
   */
  lemma {:induction false} NextRowCharacterized(s: ReaderSettings, lines: seq<string>, leftOver: string)
    ensures var p := NextRow(s, lines, leftOver);
            if p.HasRow() then
              && StillOpen(s, lines, leftOver, p.consumed - 1)
              && ParseRow(s, Attempt(s, lines, leftOver, p.consumed - 1)) == p.result.value
            else
              && StillOpen(s, lines, leftOver, |lines|)
              && var rest := LeftOverAfter(leftOver, lines, |lines|);
                 p.result == if rest == "" then Ok(None) else Fail(MalformedLeftOver(rest))
    decreases |lines|
  {
    LeftOverAfterNone(leftOver, lines);
    if |lines| > 0 && ParseRow(s, ParserInput(s, leftOver, lines[0])).None? {
      var p := NextRow(s, lines, leftOver);
      NextRowCharacterized(s, lines[1..], leftOver + lines[0]);
      if p.HasRow() {
        StillOpenStep(s, lines, leftOver, p.consumed - 1);
        AttemptShift(s, lines, leftOver, p.consumed - 2);
      } else {
        StillOpenStep(s, lines, leftOver, |lines|);
        AttemptShift(s, lines, leftOver, |lines| - 1);
      }
    }
  }

  /** A first attempt the parser refuses, then `n - 1` refused attempts after it, are `n` refused attempts. */
  lemma StillOpenStep(s: ReaderSettings, lines: seq<string>, leftOver: string, n: nat)
    requires 0 < n <= |lines|
    requires ParseRow(s, ParserInput(s, leftOver, lines[0])) == None
    requires StillOpen(s, lines[1..], leftOver + lines[0], n - 1)
    ensures StillOpen(s, lines, leftOver, n)
  {
    LeftOverAfterNone(leftOver, lines);
    forall j | 0 <= j < n
      ensures ParseRow(s, Attempt(s, lines, leftOver, j)) == None
    {
      if j > 0 {
        AttemptShift(s, lines, leftOver, j - 1);
      }
    }
  }

  /**
   * With nothing left to read, readNext reports the end of the rows when the leftover is
   * empty and a malformed-leftover error carrying the leftover otherwise.
   */
  lemma EndOfInput(s: ReaderSettings, leftOver: string)
    ensures NextRow(s, [], leftOver).consumed == 0
    ensures NextRow(s, [], leftOver).result ==
              if leftOver == "" then Ok(None) else Fail(MalformedLeftOver(leftOver))
  {
  }

  // ---------------------------------------------------------------------------
  // readNext with every line break kept

  /** The lines in order, each followed by one separator: the raw text they came from. */
  function Terminated(s: ReaderSettings, lines: seq<string>): string
  {
    if lines == [] then "" else lines[0] + s.lineSeparator + Terminated(s, lines[1..])
  }

  /**
   * readNext with the retry corrected: the leftover carried into the next attempt is the
   * whole text just handed to the parser, so every line keeps the separator after it.
   */
  function NextRowRetained(s: ReaderSettings, lines: seq<string>, leftOver: string): (p: Pull)
    ensures p.consumed <= |lines|
    ensures p.HasRow() ==> 1 <= p.consumed
    ensures !p.HasRow() ==> p.consumed == |lines|
    decreases |lines|
  {
    if |lines| == 0 then
      if leftOver != "" then Pull(Fail(MalformedLeftOver(leftOver)), 0) else Pull(Ok(None), 0)
    else
      var value := leftOver + lines[0] + s.lineSeparator;
      match ParseRow(s, value)
      case Some(row) => Pull(Ok(Some(row)), 1)
      case None =>
        var p := NextRowRetained(s, lines[1..], value);
        p.(consumed := p.consumed + 1)
  }

  lemma TerminatedSnoc(s: ReaderSettings, lines: seq<string>, k: nat)
    requires k < |lines|
    ensures Terminated(s, lines[..k + 1]) == Terminated(s, lines[..k]) + lines[k] + s.lineSeparator
  {
    if k > 0 {
      assert lines[..k + 1][1..] == lines[1..][..k];
      assert lines[..k][1..] == lines[1..][..k - 1];
      TerminatedSnoc(s, lines[1..], k - 1);
    } else {
      assert lines[..1][1..] == [];
    }
  }

  /** The text the corrected readNext hands the parser on the attempt that reads line `k`. */
  function RetainedAttempt(s: ReaderSettings, lines: seq<string>, leftOver: string, k: nat): string
    requires k < |lines|
  {
    leftOver + Terminated(s, lines[..k + 1])
  }

  lemma RetainedAttemptShift(s: ReaderSettings, lines: seq<string>, leftOver: string, j: nat)
    requires j + 1 < |lines|
    ensures RetainedAttempt(s, lines[1..], leftOver + lines[0] + s.lineSeparator, j) == RetainedAttempt(s, lines, leftOver, j + 1)
  {
    assert lines[..j + 2][1..] == lines[1..][..j + 1];
  }

  lemma RetainedAttemptFirst(s: ReaderSettings, lines: seq<string>, leftOver: string)
    requires 0 < |lines|
    ensures RetainedAttempt(s, lines, leftOver, 0) == leftOver + lines[0] + s.lineSeparator
  {
    assert lines[..1] == [lines[0]] && lines[..1][1..] == [];
    assert Terminated(s, [lines[0]]) == lines[0] + s.lineSeparator + "";
  }

  /**
   * The corrected readNext hands the parser, on the attempt that reads line `k`, exactly
   * the leftover followed by the first `k + 1` lines each with its separator; it returns
   * the row of the first attempt the parser accepts, and otherwise ends with no row or
   * with a malformed-leftover error carrying all the text it gathered.
   */
  lemma {:induction false} NextRowRetainedCharacterized(s: ReaderSettings, lines: seq<string>, leftOver: string)
    ensures var p := NextRowRetained(s, lines, leftOver);
            var n := if p.HasRow() then p.consumed - 1 else |lines|;
            && (forall j :: 0 <= j < n ==> ParseRow(s, RetainedAttempt(s, lines, leftOver, j)) == None)
            && (p.HasRow() ==> ParseRow(s, RetainedAttempt(s, lines, leftOver, p.consumed - 1)) == p.result.value)
            && (!p.HasRow() ==>
                  var rest := leftOver + Terminated(s, lines);
                  p.result == if rest == "" then Ok(None) else Fail(MalformedLeftOver(rest)))
    decreases |lines|
  {
    var p := NextRowRetained(s, lines, leftOver);
    if |lines| == 0 {
      assert leftOver + Terminated(s, lines) == leftOver;
    } else {
      var value := leftOver + lines[0] + s.lineSeparator;
      RetainedAttemptFirst(s, lines, leftOver);
      if ParseRow(s, value).None? {
        NextRowRetainedCharacterized(s, lines[1..], value);
        var n := if p.HasRow() then p.consumed - 1 else |lines|;
        forall j | 0 <= j < n
          ensures ParseRow(s, RetainedAttempt(s, lines, leftOver, j)) == None
        {
          if j > 0 {
            RetainedAttemptShift(s, lines, leftOver, j - 1);
          }
        }
        if p.HasRow() {
          RetainedAttemptShift(s, lines, leftOver, p.consumed - 2);
        } else {
          assert value + Terminated(s, lines[1..]) == leftOver + Terminated(s, lines);
        }
      }
    }
  }

  /**
   * The property the corrected readNext keeps and the one as written loses: starting from
   * an empty leftover, the text the parser sees is the consumed lines, in order, each
   * followed by exactly one separator; and, with a non-empty separator, the read fails at
   * the end of the input exactly when it has consumed lines without closing a row.
   */
  lemma RetainedKeepsLineBreaks(s: ReaderSettings, lines: seq<string>)
    requires s.lineSeparator != ""
    ensures var p := NextRowRetained(s, lines, "");
            && (p.HasRow() ==> ParseRow(s, Terminated(s, lines[..p.consumed])) == p.result.value)
            && (p.result.Fail? <==> !p.HasRow() && lines != [])
            && (p.result.Fail? ==> p.result.error == MalformedLeftOver(Terminated(s, lines)))
  {
    NextRowRetainedCharacterized(s, lines, "");
    assert "" + Terminated(s, lines) == Terminated(s, lines);
    var p := NextRowRetained(s, lines, "");
    if p.HasRow() {
      assert "" + Terminated(s, lines[..p.consumed]) == Terminated(s, lines[..p.consumed]);
    }
    if lines != [] {
      assert |Terminated(s, lines)| > 0;
    }
  }

  /**
   * As written, readNext loses the line break after the first line of a quoted field that
   * spans three lines. For the lines `"a`, `b` and `c"`, on which a parser honouring quotes
   * answers None twice, the third attempt hands the parser `"ab` + separator + `c"` +
   * separator instead of the three lines each with their separator.
   */
  lemma LineBreakLostAsWritten(s: ReaderSettings)
    requires s.lineSeparator != ""
    requires ParseRow(s, "\"a" + s.lineSeparator) == None
    requires ParseRow(s, "\"a" + s.lineSeparator + "b" + s.lineSeparator) == None
    ensures var lines := ["\"a", "b", "c\""];
            var seen := "\"ab" + s.lineSeparator + "c\"" + s.lineSeparator;
            && Attempt(s, lines, "", 2) == seen
            && seen != Terminated(s, lines)
            && NextRow(s, lines, "").result ==
                 match ParseRow(s, seen)
                 case Some(row) => Ok(Some(row))
                 case None => Fail(MalformedLeftOver("\"abc\""))
  {
    var sep := s.lineSeparator;
    var lines := ["\"a", "b", "c\""];
    var seen := "\"ab" + sep + "c\"" + sep;
    assert lines[1..] == ["b", "c\""] && lines[1..][1..] == ["c\""] && lines[1..][1..][1..] == [];
    assert lines[..2] == ["\"a", "b"] && lines[..2][1..] == ["b"] && ["b"][1..] == [];
    assert Concat(["b"]) == "b" + Concat([]);
    assert "\"a" + "b" == "\"ab" && "\"ab" + "c\"" == "\"abc\"";
    assert "\"a" + Concat(["b"]) == "\"ab";
    assert LeftOverAfter("", lines, 2) == "\"ab";
    assert Attempt(s, lines, "", 2) == seen;
    assert ParserInput(s, "", "\"a") == "\"a" + sep;
    assert ParserInput(s, "\"a", "b") == "\"a" + sep + "b" + sep;
    assert ParserInput(s, "\"ab", "c\"") == seen;
    assert |seen| == 5 + 2 * |sep|;
    assert Terminated(s, lines[1..][1..]) == "c\"" + sep + Terminated(s, []);
    assert |Terminated(s, lines)| == 5 + 3 * |sep|;
    assert "" + "\"a" == "\"a";
    assert NextRow(s, lines, "") == NextRow(s, lines[1..], "\"a").(consumed := NextRow(s, lines[1..], "\"a").consumed + 1);
    assert NextRow(s, lines[1..], "\"a").result == NextRow(s, ["c\""], "\"ab").result;
    assert NextRow(s, [], "\"abc\"").result == Fail(MalformedLeftOver("\"abc\""));
  }

  // ---------------------------------------------------------------------------
  // The row sequence

  /** Which readNext a reader pulls rows with: the code as written, or with the retry corrected. */
  datatype Assembler = AsWritten | Retained

  /** One readNext call from an empty leftover, by the chosen assembler. */
  function ReadRow(s: ReaderSettings, a: Assembler, lines: seq<string>): (p: Pull)
    ensures p.consumed <= |lines|
    ensures p.HasRow() ==> 1 <= p.consumed
    ensures !p.HasRow() ==> p.consumed == |lines|
  {
    match a
    case AsWritten => NextRow(s, lines, "")
    case Retained => NextRowRetained(s, lines, "")
  }

  /**
   * The rows of the whole input: readNext pulled again and again, each time from an
   * empty leftover, until it reports the end; the first failure ends the read. Every row
   * takes at least one line, so a read yields no more rows than the input has lines.
   */
  function AllRows(s: ReaderSettings, a: Assembler, lines: seq<string>): (r: Result<seq<Row>>)
    ensures r.Ok? ==> |r.value| <= |lines|
    decreases |lines|
  {
    var p := ReadRow(s, a, lines);
    match p.result
    case Fail(e) => Fail(e)
    case Ok(None) => Ok([])
    case Ok(Some(row)) => Prepend([row], AllRows(s, a, lines[p.consumed..]))
  }

  /**
   * One step of the read loop: after the rows already pulled, the next pull either fails,
   * ends the read, or adds its row and leaves the rest of the lines to the same process.
   */
  lemma AllRowsStep(s: ReaderSettings, a: Assembler, rows: seq<Row>, lines: seq<string>)
    ensures var p := ReadRow(s, a, lines);
            var all := Prepend(rows, AllRows(s, a, lines));
            && (p.result.Fail? ==> all == Fail(p.result.error))
            && (p.result == Ok(None) ==> all == Ok(rows))
            && (p.HasRow() ==> all == Prepend(rows + [p.result.value.value], AllRows(s, a, lines[p.consumed..])))
  {
    var p := ReadRow(s, a, lines);
    if p.result == Ok(None) {
      assert rows + [] == rows;
    } else if p.HasRow() {
      PrependSnoc(rows, p.result.value.value, AllRows(s, a, lines[p.consumed..]));
    }
  }

  /**
   * The first `n` rows pulled from the input, with the lines still unread after them;
   * None when one of those `n` pulls yields no row.
   */
  function PullRows(s: ReaderSettings, a: Assembler, lines: seq<string>, n: nat): (r: Option<(seq<Row>, seq<string>)>)
    ensures r.Some? ==> |r.value.0| == n && |r.value.1| <= |lines|
    decreases n
  {
    if n == 0 then Some(([], lines))
    else
      var p := ReadRow(s, a, lines);
      if !p.HasRow() then None
      else
        match PullRows(s, a, lines[p.consumed..], n - 1)
        case None => None
        case Some(q) => Some(([p.result.value.value] + q.0, q.1))
  }

  /** `n + 1` pulls are the first pull followed by `n` pulls from the lines after it. */
  lemma PullRowsFirst(s: ReaderSettings, a: Assembler, lines: seq<string>, n: nat)
    requires PullRows(s, a, lines, n + 1).Some?
    ensures var p := ReadRow(s, a, lines);
            var q := PullRows(s, a, lines[p.consumed..], n);
            && p.HasRow() && q.Some?
            && PullRows(s, a, lines, n + 1).value.0[0] == p.result.value.value
            && PullRows(s, a, lines, n + 1).value.0[1..] == q.value.0
            && PullRows(s, a, lines, n + 1).value.1 == q.value.1
  {
    var p := ReadRow(s, a, lines);
    var q := PullRows(s, a, lines[p.consumed..], n);
    assert PullRows(s, a, lines, n + 1).value.0 == [p.result.value.value] + q.value.0;
  }

  /**
   * The row sequence is exactly the successive pulls: the read yields `n` rows precisely
   * when the first `n` pulls each yield a row and the pull after them reports the end.
   */
  lemma {:induction false} AllRowsComplete(s: ReaderSettings, a: Assembler, lines: seq<string>, n: nat)
    ensures var r := AllRows(s, a, lines);
            var q := PullRows(s, a, lines, n);
            (r.Ok? && |r.value| == n) <==> (q.Some? && ReadRow(s, a, q.value.1).result == Ok(None))
    decreases n
  {
    var p := ReadRow(s, a, lines);
    if n == 0 {
      assert PullRows(s, a, lines, 0) == Some(([], lines));
    } else if !p.HasRow() {
      assert PullRows(s, a, lines, n) == None;
    } else {
      var row, rest := p.result.value.value, lines[p.consumed..];
      AllRowsComplete(s, a, rest, n - 1);
      assert AllRows(s, a, lines) == Prepend([row], AllRows(s, a, rest));
      var q := PullRows(s, a, rest, n - 1);
      if q.Some? {
        assert PullRows(s, a, lines, n) == Some(([row] + q.value.0, q.value.1));
      } else {
        assert PullRows(s, a, lines, n) == None;
      }
    }
  }

  /** The rows of a successful read are the rows of its successive pulls, in order. */
  lemma {:induction false} AllRowsArePulls(s: ReaderSettings, a: Assembler, lines: seq<string>)
    ensures var r := AllRows(s, a, lines);
            r.Ok? ==> PullRows(s, a, lines, |r.value|).Some? && PullRows(s, a, lines, |r.value|).value.0 == r.value
    decreases |lines|
  {
    var p := ReadRow(s, a, lines);
    var r := AllRows(s, a, lines);
    if r.Ok? && p.HasRow() {
      var row, rest := p.result.value.value, lines[p.consumed..];
      AllRowsArePulls(s, a, rest);
      var more := AllRows(s, a, rest).value;
      assert r.value == [row] + more;
      assert PullRows(s, a, lines, |r.value|) == Some(([row] + more, PullRows(s, a, rest, |more|).value.1));
    }
  }
}
