/**
 * The terminator-keeping line splitter (`BufferedLineReader.readLineWithTerminator`).
 *
 * A line ends at the first of LF, CR LF, CR, U+2028, U+2029 or U+0085; the terminator
 * stays in the returned line, CR LF is never split, and a last fragment without a
 * terminator is returned as it is. `Lines` is the whole split as a function; the class
 * hands the same lines out one call at a time.
 */
module LineReading {
  import opened Text

  /** The characters that can end a line. */
  predicate IsBreakChar(c: char)
  {
    c == '\n' || c == '\r' || c == '\U{2028}' || c == '\U{2029}' || c == '\U{0085}'
  }

  /** No break character among `s[i..j]`. */
  predicate NoBreakIn(s: string, i: nat, j: nat)
    requires i <= j <= |s|
  {
    forall k :: i <= k < j ==> !IsBreakChar(s[k])
  }

  /**
   * `s[i..e]` is a line that ends in exactly one terminator and holds no other break
   * character: either CR LF preceded by no break, or one break character preceded by none.
   */
  predicate TerminatedAt(s: string, i: nat, e: nat)
  {
    && i < e <= |s|
    && (|| (e - i >= 2 && s[e - 2] == '\r' && s[e - 1] == '\n' && NoBreakIn(s, i, e - 2))
        || (IsBreakChar(s[e - 1]) && NoBreakIn(s, i, e - 1)))
  }

  predicate HasNoBreak(l: string)
  {
    NoBreakIn(l, 0, |l|)
  }

  predicate IsTerminatedLine(l: string)
  {
    TerminatedAt(l, 0, |l|)
  }

  /** One recognised terminator: CR LF, or a single break character. */
  predicate IsTerminator(t: string)
  {
    t == "\r\n" || (|t| == 1 && IsBreakChar(t[0]))
  }

  predicate EndsWithCr(l: string)
  {
    |l| > 0 && l[|l| - 1] == '\r'
  }

  predicate StartsWithLf(l: string)
  {
    |l| > 0 && l[0] == '\n'
  }

  /**
   * What a correct split of a text looks like: no empty line, every line but the last
   * ends in exactly one terminator, the last one either does too or holds no break at
   * all, and no line ending in CR is followed by one starting with LF.
   */
  predicate WellSplit(ls: seq<string>)
  {
    && (forall i :: 0 <= i < |ls| ==> ls[i] != "")
    && (forall i :: 0 <= i < |ls| - 1 ==> IsTerminatedLine(ls[i]))
    && (|ls| > 0 ==> IsTerminatedLine(ls[|ls| - 1]) || HasNoBreak(ls[|ls| - 1]))
    && (forall i :: 0 <= i < |ls| - 1 && EndsWithCr(ls[i]) ==> !StartsWithLf(ls[i + 1]))
  }

  /** Where the line that starts at `i` ends: just past its terminator, or at the end of the text. */
  function LineEnd(s: string, i: nat): (e: nat)
    requires i < |s|
    ensures i < e <= |s|
    decreases |s| - i
  {
    if s[i] == '\r' then (if i + 1 < |s| && s[i + 1] == '\n' then i + 2 else i + 1)
    else if IsBreakChar(s[i]) || i + 1 == |s| then i + 1
    else LineEnd(s, i + 1)
  }

  /** The lines successive calls of readLineWithTerminator return once `s[..i]` has been read. */
  function LinesFrom(s: string, i: nat): (ls: seq<string>)
    requires i <= |s|
    ensures |ls| <= |s| - i
    ensures ls == [] <==> i == |s|
    decreases |s| - i
  {
    if i == |s| then [] else
      var e := LineEnd(s, i);
      [s[i..e]] + LinesFrom(s, e)
  }

  /** The lines of the whole text `s`. */
  function Lines(s: string): (ls: seq<string>)
    ensures |ls| <= |s|
    ensures ls == [] <==> s == ""
  {
    LinesFrom(s, 0)
  }

  /** A line starting at `i` is a terminated line, or runs break-free to the end of the text. */
  lemma {:induction false} LineEndShape(s: string, i: nat)
    requires i < |s|
    ensures var e := LineEnd(s, i);
            && (TerminatedAt(s, i, e) || (e == |s| && NoBreakIn(s, i, e)))
            && (s[e - 1] == '\r' && e < |s| ==> s[e] != '\n')
    decreases |s| - i
  {
    if s[i] == '\r' || IsBreakChar(s[i]) || i + 1 == |s| {
    } else {
      LineEndShape(s, i + 1);
    }
  }

  /** A well-formed line starting at `i` is exactly what LineEnd measures. */
  lemma {:induction false} LineEndOf(s: string, i: nat, e: nat)
    requires i < e <= |s|
    requires || (TerminatedAt(s, i, e) && (s[e - 1] == '\r' && e < |s| ==> s[e] != '\n'))
             || (e == |s| && NoBreakIn(s, i, e))
    ensures LineEnd(s, i) == e
    decreases e - i
  {
    if IsBreakChar(s[i]) {
      assert e == i + 1 || (e == i + 2 && s[i] == '\r' && s[i + 1] == '\n');
    } else if i + 1 < |s| {
      assert i + 1 < e;
      LineEndOf(s, i + 1, e);
    }
  }

  /** Reading a slice of a text character by character is reading the text in that range. */
  lemma SliceLines(s: string, i: nat, e: nat)
    requires i < e <= |s|
    ensures IsTerminatedLine(s[i..e]) <==> TerminatedAt(s, i, e)
    ensures HasNoBreak(s[i..e]) <==> NoBreakIn(s, i, e)
  {
    var l := s[i..e];
    assert forall j :: 0 <= j <= |l| ==> (NoBreakIn(l, 0, j) <==> NoBreakIn(s, i, i + j)) by {
      forall j | 0 <= j <= |l|
        ensures NoBreakIn(l, 0, j) <==> NoBreakIn(s, i, i + j)
      {
        if NoBreakIn(s, i, i + j) {
          forall k | 0 <= k < j ensures !IsBreakChar(l[k]) {
            assert l[k] == s[i + k];
          }
        }
        if NoBreakIn(l, 0, j) {
          forall k | i <= k < i + j ensures !IsBreakChar(s[k]) {
            assert s[k] == l[k - i];
          }
        }
      }
    }
  }

  /** Joining the lines gives back the text: nothing is dropped, added or reordered. */
  lemma {:induction false} LinesRoundTrip(s: string, i: nat)
    requires i <= |s|
    ensures Concat(LinesFrom(s, i)) == s[i..]
    decreases |s| - i
  {
    if i < |s| {
      var e := LineEnd(s, i);
      LinesRoundTrip(s, e);
      assert ([s[i..e]] + LinesFrom(s, e))[1..] == LinesFrom(s, e);
      assert s[i..e] + s[e..] == s[i..];
    }
  }

  /** The split `LinesFrom` produces has the shape readLineWithTerminator promises. */
  lemma {:induction false} LinesWellSplit(s: string, i: nat)
    requires i <= |s|
    ensures WellSplit(LinesFrom(s, i))
    decreases |s| - i
  {
    if i < |s| {
      var e := LineEnd(s, i);
      var rest := LinesFrom(s, e);
      LineEndShape(s, i);
      SliceLines(s, i, e);
      LinesWellSplit(s, e);
      var ls := [s[i..e]] + rest;
      assert ls == LinesFrom(s, i);
      if rest != [] {
        assert rest[0] == s[e..LineEnd(s, e)];
        assert IsTerminatedLine(ls[0]);
        assert EndsWithCr(ls[0]) ==> !StartsWithLf(ls[1]);
        forall j | 0 <= j < |ls| - 1 && EndsWithCr(ls[j])
          ensures !StartsWithLf(ls[j + 1])
        {
          if j > 0 {
            assert ls[j] == rest[j - 1] && ls[j + 1] == rest[j];
          }
        }
        forall j | 0 <= j < |ls| - 1
          ensures IsTerminatedLine(ls[j])
        {
          if j > 0 {
            assert ls[j] == rest[j - 1];
          }
        }
        assert ls[|ls| - 1] == rest[|rest| - 1];
      }
      forall j | 0 <= j < |ls|
        ensures ls[j] != ""
      {
        if j > 0 {
          assert ls[j] == rest[j - 1];
        }
      }
    }
  }

  /** Dropping the first line of a well-formed split leaves a well-formed split. */
  lemma WellSplitTail(ls: seq<string>)
    requires ls != [] && WellSplit(ls)
    ensures WellSplit(ls[1..])
  {
    var tail := ls[1..];
    forall j | 0 <= j < |tail| - 1 ensures IsTerminatedLine(tail[j]) {
      assert tail[j] == ls[j + 1];
    }
    forall j | 0 <= j < |tail| - 1 && EndsWithCr(tail[j]) ensures !StartsWithLf(tail[j + 1]) {
      assert tail[j] == ls[j + 1] && tail[j + 1] == ls[j + 2];
    }
    forall j | 0 <= j < |tail| ensures tail[j] != "" {
      assert tail[j] == ls[j + 1];
    }
  }

  /** The first line of a well-formed split of `s[i..]` is the one LineEnd measures. */
  lemma FirstLineOfSplit(s: string, i: nat, ls: seq<string>)
    requires i <= |s| && WellSplit(ls) && ls != [] && Concat(ls) == s[i..]
    ensures i + |ls[0]| <= |s| && LineEnd(s, i) == i + |ls[0]|
    ensures s[i..i + |ls[0]|] == ls[0] && s[i + |ls[0]|..] == Concat(ls[1..])
  {
    var t, tail := ls[0], ls[1..];
    var e := i + |t|;
    assert s[i..] == t + Concat(tail);
    assert s[i..e] == t && s[e..] == Concat(tail) by {
      assert s[i..][..|t|] == t && s[i..][|t|..] == Concat(tail);
    }
    SliceLines(s, i, e);
    if tail != [] {
      assert tail[0] == ls[1];
      assert Concat(tail) == tail[0] + Concat(tail[1..]);
      assert s[e] == tail[0][0];
      assert IsTerminatedLine(t) && (EndsWithCr(t) ==> !StartsWithLf(tail[0]));
    }
    LineEndOf(s, i, e);
  }

  /**
   * The split is the only well-formed one: any split into lines of the promised shape
   * that joins back to the unread part of a text is the one `LinesFrom` gives for it.
   */
  lemma {:induction false} WellSplitUnique(s: string, i: nat, ls: seq<string>)
    requires i <= |s| && WellSplit(ls) && Concat(ls) == s[i..]
    ensures LinesFrom(s, i) == ls
    decreases |ls|
  {
    if ls == [] {
      assert s[i..] == [];
    } else {
      var e := i + |ls[0]|;
      FirstLineOfSplit(s, i, ls);
      WellSplitTail(ls);
      WellSplitUnique(s, e, ls[1..]);
      LinesFromStep(s, i, e, ls);
    }
  }

  /** The lines from `i` are the line up to `e`, where it ends, then the lines from `e`. */
  lemma LinesFromStep(s: string, i: nat, e: nat, ls: seq<string>)
    requires i < e <= |s| && LineEnd(s, i) == e && ls != []
    requires s[i..e] == ls[0] && LinesFrom(s, e) == ls[1..]
    ensures LinesFrom(s, i) == ls
  {
    assert ls == [ls[0]] + ls[1..];
  }

  /**
   * A text made of a break-free line, one terminator and a break-free fragment reads as
   * two lines: the first keeps its terminator, the fragment comes back as it is, and
   * nothing follows it.
   */
  lemma SplitAtTerminator(a: string, t: string, b: string)
    requires HasNoBreak(a) && IsTerminator(t) && HasNoBreak(b) && b != []
    ensures Lines(a + t + b) == [a + t, b]
  {
    var l := a + t;
    var s := l + b;
    assert IsTerminatedLine(l) by {
      assert forall k :: 0 <= k < |a| ==> l[k] == a[k];
    }
    assert !EndsWithCr(l) || !StartsWithLf(b);
    assert Concat([l, b]) == s by {
      assert [l, b][1..] == [b];
      assert Concat([b]) == b + Concat([]);
    }
    assert WellSplit([l, b]);
    WellSplitUnique(s, 0, [l, b]);
  }

  /**
   * The tests' shape: a fresh reader over a break-free line, one terminator and a
   * non-empty break-free fragment returns the line with its terminator, then the
   * fragment as it is, then None.
   */
  method ReadThreeTimes(text: string, a: string, t: string, b: string) returns (first: Option<string>, second: Option<string>, third: Option<string>)
    requires text == a + t + b && HasNoBreak(a) && IsTerminator(t) && HasNoBreak(b) && b != []
    ensures first == Some(a + t) && second == Some(b) && third == None
  {
    SplitAtTerminator(a, t, b);
    var blr := new BufferedLineReader(text);
    first := blr.ReadLineWithTerminator();
    second := blr.ReadLineWithTerminator();
    third := blr.ReadLineWithTerminator();
  }

  /** BufferedLineReaderTest, LF: a reader over "a,b,c\nd,e,f" returns "a,b,c\n", then "d,e,f", then None. */
  method LfTest() returns (first: Option<string>, second: Option<string>, third: Option<string>)
    ensures first == Some("a,b,c\n") && second == Some("d,e,f") && third == None
  {
    assert "a,b,c" + "\n" + "d,e,f" == "a,b,c\nd,e,f";
    first, second, third := ReadThreeTimes("a,b,c\nd,e,f", "a,b,c", "\n", "d,e,f");
    assert "a,b,c" + "\n" == "a,b,c\n";
  }

  /** CR LF is one terminator: over "a,b,c\r\nd,e,f" the reader returns "a,b,c\r\n", then "d,e,f", then None. */
  method CrLfTest() returns (first: Option<string>, second: Option<string>, third: Option<string>)
    ensures first == Some("a,b,c\r\n") && second == Some("d,e,f") && third == None
  {
    assert "a,b,c" + "\r\n" + "d,e,f" == "a,b,c\r\nd,e,f";
    first, second, third := ReadThreeTimes("a,b,c\r\nd,e,f", "a,b,c", "\r\n", "d,e,f");
    assert "a,b,c" + "\r\n" == "a,b,c\r\n";
  }

  /** A bare CR ends a line: over "a,b,c\rd,e,f" the reader returns "a,b,c\r", then "d,e,f", then None. */
  method CrTest() returns (first: Option<string>, second: Option<string>, third: Option<string>)
    ensures first == Some("a,b,c\r") && second == Some("d,e,f") && third == None
  {
    assert "a,b,c" + "\r" + "d,e,f" == "a,b,c\rd,e,f";
    first, second, third := ReadThreeTimes("a,b,c\rd,e,f", "a,b,c", "\r", "d,e,f");
    assert "a,b,c" + "\r" == "a,b,c\r";
  }

  /** LINE SEPARATOR (U+2028) ends a line and is kept with it. */
  method LineSeparatorTest() returns (first: Option<string>, second: Option<string>, third: Option<string>)
    ensures first == Some("a,b,c\U{2028}") && second == Some("d,e,f") && third == None
  {
    assert "a,b,c" + "\U{2028}" + "d,e,f" == "a,b,c\U{2028}d,e,f";
    first, second, third := ReadThreeTimes("a,b,c\U{2028}d,e,f", "a,b,c", "\U{2028}", "d,e,f");
    assert "a,b,c" + "\U{2028}" == "a,b,c\U{2028}";
  }

  /** PARAGRAPH SEPARATOR (U+2029) ends a line and is kept with it. */
  method ParagraphSeparatorTest() returns (first: Option<string>, second: Option<string>, third: Option<string>)
    ensures first == Some("a,b,c\U{2029}") && second == Some("d,e,f") && third == None
  {
    assert "a,b,c" + "\U{2029}" + "d,e,f" == "a,b,c\U{2029}d,e,f";
    first, second, third := ReadThreeTimes("a,b,c\U{2029}d,e,f", "a,b,c", "\U{2029}", "d,e,f");
    assert "a,b,c" + "\U{2029}" == "a,b,c\U{2029}";
  }

  /** NEXT LINE (U+0085) ends a line and is kept with it. */
  method NextLineTest() returns (first: Option<string>, second: Option<string>, third: Option<string>)
    ensures first == Some("a,b,c\U{0085}") && second == Some("d,e,f") && third == None
  {
    assert "a,b,c" + "\U{0085}" + "d,e,f" == "a,b,c\U{0085}d,e,f";
    first, second, third := ReadThreeTimes("a,b,c\U{0085}d,e,f", "a,b,c", "\U{0085}", "d,e,f");
    assert "a,b,c" + "\U{0085}" == "a,b,c\U{0085}";
  }

  /** A reader over a text, handing out one line per call; the stream it wraps is the text. */
  class BufferedLineReader {
    const text: string
    var pos: nat

    ghost predicate Valid()
      reads this
    {
      pos <= |text|
    }

    /** The lines not handed out yet. */
    ghost function Remaining(): seq<string>
      reads this
      requires Valid()
    {
      LinesFrom(text, pos)
    }

    constructor (text: string)
      ensures Valid() && this.text == text && pos == 0
      ensures Remaining() == Lines(text)
    {
      this.text := text;
      pos := 0;
    }

    /**
     * Reads characters up to and including the next terminator, taking the LF of a
     * CR LF with the CR; None once the text is used up. Each call returns the next line
     * of `Lines(text)`.
     */
    method ReadLineWithTerminator() returns (line: Option<string>)
      requires Valid()
      modifies this
      ensures Valid() && old(pos) <= pos
      ensures old(Remaining()) == [] ==> line == None && pos == old(pos)
      ensures old(Remaining()) != [] ==>
                && line == Some(old(Remaining())[0])
                && line.value == text[old(pos)..pos]
                && Remaining() == old(Remaining())[1..]
    {
      var start := pos;
      var sb := "";
      var ended := false;
      while pos < |text| && !ended
        invariant start <= pos <= |text|
        invariant sb == text[start..pos]
        invariant !ended ==> NoBreakIn(text, start, pos)
        invariant ended ==> TerminatedAt(text, start, pos) && (text[pos - 1] == '\r' && pos < |text| ==> text[pos] != '\n')
        decreases |text| - pos, !ended
      {
        var ch := text[pos];
        pos := pos + 1;
        sb := sb + [ch];
        if ch == '\n' || ch == '\U{2028}' || ch == '\U{2029}' || ch == '\U{0085}' {
          ended := true;
        } else if ch == '\r' {
          if pos < |text| && text[pos] == '\n' {
            sb := sb + ['\n'];
            pos := pos + 1;
          }
          ended := true;
        }
      }
      if sb == [] {
        return None;
      }
      LineEndOf(text, start, pos);
      line := Some(sb);
    }
  }
}
