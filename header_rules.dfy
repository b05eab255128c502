/**
 * The header layer (`CsvReader.readWithHeader` and `findDuplicate`): the first row names
 * the fields, a repeated name is rejected, every later row must have as many fields as
 * the header, and each such row becomes a map from header name to field.
 */
module HeaderRules {
  import opened Text
  import opened RowAssembly

  predicate Distinct(names: seq<string>)
  {
    forall i, j :: 0 <= i < j < |names| ==> names[i] != names[j]
  }

  /** `names[k]` is the first name that repeats an earlier one. */
  predicate IsFirstRepeat(names: seq<string>, k: nat)
  {
    k < |names| && names[k] in names[..k] && Distinct(names[..k])
  }

  /** The first name that equals an earlier one, scanning left to right; None when all differ. */
  function FirstDuplicate(names: seq<string>): (d: Option<string>)
    ensures d.Some? ==> multiset(names)[d.value] >= 2
    decreases |names|
  {
    if names == [] then None
    else
      var init, last := names[..|names| - 1], names[|names| - 1];
      assert names == init + [last];
      match FirstDuplicate(init)
      case Some(d) => Some(d)
      case None => if last in init then Some(last) else None
  }

  lemma FirstRepeatUnique(names: seq<string>, k: nat, k': nat)
    requires IsFirstRepeat(names, k) && IsFirstRepeat(names, k')
    ensures k == k'
  {
  }

  /** A first repeat in all but the last name is the first repeat of the whole list. */
  lemma RepeatInInit(names: seq<string>, k: nat)
    requires names != [] && IsFirstRepeat(names[..|names| - 1], k)
    ensures IsFirstRepeat(names, k) && !Distinct(names)
    ensures forall k': nat :: IsFirstRepeat(names, k') ==> k' == k
  {
    assert names[..k] == names[..|names| - 1][..k];
    forall k': nat | IsFirstRepeat(names, k') ensures k' == k {
      FirstRepeatUnique(names, k, k');
    }
    var j :| 0 <= j < k && names[..k][j] == names[k];
    assert names[j] == names[k];
  }

  /** When only the last name repeats an earlier one, it is the first repeat. */
  lemma RepeatAtLast(names: seq<string>)
    requires names != [] && Distinct(names[..|names| - 1]) && names[|names| - 1] in names[..|names| - 1]
    ensures IsFirstRepeat(names, |names| - 1) && !Distinct(names)
    ensures forall k': nat :: IsFirstRepeat(names, k') ==> k' == |names| - 1
  {
    var n := |names|;
    forall k': nat | IsFirstRepeat(names, k') ensures k' == n - 1 {
      FirstRepeatUnique(names, n - 1, k');
    }
    var j :| 0 <= j < n - 1 && names[..n - 1][j] == names[n - 1];
    assert names[j] == names[n - 1];
  }

  /** A new name after distinct names keeps them distinct. */
  lemma DistinctSnoc(names: seq<string>)
    requires names != [] && Distinct(names[..|names| - 1]) && names[|names| - 1] !in names[..|names| - 1]
    ensures Distinct(names) && forall k: nat :: !IsFirstRepeat(names, k)
  {
    var n := |names|;
    var init := names[..n - 1];
    forall i, j | 0 <= i < j < n ensures names[i] != names[j] {
      assert init[i] == names[i];
      if j < n - 1 {
        assert init[j] == names[j];
      }
    }
  }

  /**
   * FirstDuplicate finds nothing exactly when the names are pairwise distinct, and
   * otherwise finds the name at the first position that repeats an earlier one.
   */
  lemma {:induction false} FirstDuplicateSpec(names: seq<string>)
    ensures FirstDuplicate(names) == None <==> Distinct(names)
    ensures forall k: nat :: IsFirstRepeat(names, k) ==> FirstDuplicate(names) == Some(names[k])
    ensures !Distinct(names) ==> exists k: nat :: IsFirstRepeat(names, k)
    decreases |names|
  {
    if names != [] {
      var n := |names|;
      var init := names[..n - 1];
      FirstDuplicateSpec(init);
      if FirstDuplicate(init).Some? {
        var k: nat :| IsFirstRepeat(init, k);
        RepeatInInit(names, k);
      } else if names[n - 1] in init {
        RepeatAtLast(names);
      } else {
        DistinctSnoc(names);
      }
    }
  }

  /** Once a prefix holds a repeated name, the whole list has the same first duplicate. */
  lemma {:induction false} FirstDuplicateExtends(names: seq<string>, i: nat)
    requires i <= |names| && FirstDuplicate(names[..i]).Some?
    ensures FirstDuplicate(names) == FirstDuplicate(names[..i])
    decreases |names|
  {
    if i < |names| {
      var init := names[..|names| - 1];
      assert init[..i] == names[..i];
      FirstDuplicateExtends(init, i);
    } else {
      assert names[..i] == names;
    }
  }

  /**
   * `headers.zip(fields).toMap()`: pairs up names and fields position by position, as far
   * as the shorter list goes; a later pair wins over an earlier one with the same name.
   */
  function ZipToMap(keys: seq<string>, values: seq<string>): (m: map<string, string>)
    ensures |keys| == |values| ==> forall k :: k in m <==> k in keys
  {
    if keys == [] || values == [] then map[]
    else
      assert keys == [keys[0]] + keys[1..];
      map[keys[0] := values[0]] + ZipToMap(keys[1..], values[1..])
  }

  lemma DistinctTail(keys: seq<string>)
    requires keys != [] && Distinct(keys)
    ensures Distinct(keys[1..]) && keys[0] !in keys[1..]
  {
    forall i, j | 0 <= i < j < |keys[1..]| ensures keys[1..][i] != keys[1..][j] {
      assert keys[1..][i] == keys[i + 1] && keys[1..][j] == keys[j + 1];
    }
    forall j | 0 <= j < |keys[1..]| ensures keys[1..][j] != keys[0] {
      assert keys[1..][j] == keys[j + 1];
    }
  }

  /** Adding a pair whose name the rest does not hold is updating the rest with it. */
  lemma ZipToMapCons(keys: seq<string>, values: seq<string>)
    requires keys != [] && |keys| == |values| && keys[0] !in keys[1..]
    ensures ZipToMap(keys, values) == ZipToMap(keys[1..], values[1..])[keys[0] := values[0]]
  {
    var rest := ZipToMap(keys[1..], values[1..]);
    var m := ZipToMap(keys, values);
    assert m.Keys == rest[keys[0] := values[0]].Keys;
  }

  /**
   * For distinct names and as many fields as names, the zipped map has exactly the names
   * as keys, as many entries as names, and maps each name to the field at its position.
   */
  lemma {:induction false} ZipToMapSpec(keys: seq<string>, values: seq<string>)
    requires Distinct(keys) && |keys| == |values|
    ensures var m := ZipToMap(keys, values);
            && (forall k :: k in m <==> k in keys)
            && |m| == |keys|
            && (forall i :: 0 <= i < |keys| ==> m[keys[i]] == values[i])
    decreases |keys|
  {
    if keys != [] {
      DistinctTail(keys);
      ZipToMapSpec(keys[1..], values[1..]);
      ZipToMapCons(keys, values);
      var rest := ZipToMap(keys[1..], values[1..]);
      var m := ZipToMap(keys, values);
      assert m == rest[keys[0] := values[0]];
      assert |m| == |rest| + 1;
      forall i | 0 <= i < |keys| ensures m[keys[i]] == values[i] {
        if i > 0 {
          assert keys[i] == keys[1..][i - 1] && values[i] == values[1..][i - 1];
          assert keys[i] != keys[0];
        }
      }
    }
  }

  // ---------------------------------------------------------------------------
  // readWithHeader

  /**
   * The data rows pulled one at a time, each checked against the header size before the
   * next one is read, and turned into a map from header name to field.
   */
  function ZipRows(s: ReaderSettings, a: Assembler, header: Row, lines: seq<string>): (r: Result<seq<map<string, string>>>)
    ensures r.Ok? ==> forall m :: m in r.value ==> forall k :: k in m <==> k in header
    decreases |lines|
  {
    var p := ReadRow(s, a, lines);
    match p.result
    case Fail(e) => Fail(e)
    case Ok(None) => Ok([])
    case Ok(Some(fields)) =>
      if |header| != |fields| then Fail(FieldCountMismatch(|fields|, |header|))
      else
        var m := ZipToMap(header, fields);
        match ZipRows(s, a, header, lines[p.consumed..])
        case Fail(e) => Fail(e)
        case Ok(ms) =>
          assert forall m' :: m' in [m] + ms ==> m' == m || m' in ms;
          Ok([m] + ms)
  }

  /** A successful data-row read has read every row: it has exactly as many rows as maps. */
  lemma {:induction false} ZipRowsReadsAll(s: ReaderSettings, a: Assembler, header: Row, lines: seq<string>)
    ensures var r := ZipRows(s, a, header, lines);
            r.Ok? ==> AllRows(s, a, lines).Ok? && |AllRows(s, a, lines).value| == |r.value|
    decreases |lines|
  {
    var p := ReadRow(s, a, lines);
    if p.HasRow() && |p.result.value.value| == |header| {
      ZipRowsReadsAll(s, a, header, lines[p.consumed..]);
    }
  }

  /**
   * One step of the data-row loop: after the maps already built, the next pull either
   * fails, ends the read, rejects a row whose size differs from the header's, or adds
   * that row's map and leaves the rest of the lines to the same process.
   */
  lemma ZipRowsStep(s: ReaderSettings, a: Assembler, header: Row, maps: seq<map<string, string>>, lines: seq<string>)
    ensures var p := ReadRow(s, a, lines);
            var all := Prepend(maps, ZipRows(s, a, header, lines));
            && (p.result.Fail? ==> all == Fail(p.result.error))
            && (p.result == Ok(None) ==> all == Ok(maps))
            && (p.HasRow() && |p.result.value.value| != |header| ==>
                  all == Fail(FieldCountMismatch(|p.result.value.value|, |header|)))
            && (p.HasRow() && |p.result.value.value| == |header| ==>
                  all == Prepend(maps + [ZipToMap(header, p.result.value.value)], ZipRows(s, a, header, lines[p.consumed..])))
  {
    var p := ReadRow(s, a, lines);
    match p.result
    case Fail(_) =>
    case Ok(None) =>
      assert maps + [] == maps;
    case Ok(Some(fields)) =>
      if |header| == |fields| {
        var m := ZipToMap(header, fields);
        match ZipRows(s, a, header, lines[p.consumed..])
        case Ok(more) => assert maps + ([m] + more) == (maps + [m]) + more;
        case Fail(_) =>
      }
  }

  /**
   * How many lines the data-row read takes before it stops: all of them when a pull fails
   * or reports the end, up to the end of a row of the wrong size, and otherwise those of
   * the row and of the rest of the read.
   */
  function ZipRowsConsumed(s: ReaderSettings, a: Assembler, header: Row, lines: seq<string>): (n: nat)
    ensures n <= |lines|
    decreases |lines|
  {
    var p := ReadRow(s, a, lines);
    if !p.HasRow() || |header| != |p.result.value.value| then p.consumed
    else p.consumed + ZipRowsConsumed(s, a, header, lines[p.consumed..])
  }

  /** The lines the data-row read takes, after its first pull has yielded a row. */
  lemma ZipRowsConsumedFirst(s: ReaderSettings, a: Assembler, header: Row, lines: seq<string>)
    requires ReadRow(s, a, lines).HasRow()
    ensures var p := ReadRow(s, a, lines);
            && (|p.result.value.value| != |header| ==> ZipRowsConsumed(s, a, header, lines) == p.consumed)
            && (|p.result.value.value| == |header| ==>
                  ZipRowsConsumed(s, a, header, lines) == p.consumed + ZipRowsConsumed(s, a, header, lines[p.consumed..]))
  {
  }

  /**
   * The data-row read uses up the input unless a row of the wrong size stops it: lines
   * are left over only after a size-mismatch failure.
   */
  lemma {:induction false} ZipRowsStopsOnMismatch(s: ReaderSettings, a: Assembler, header: Row, lines: seq<string>)
    ensures ZipRowsConsumed(s, a, header, lines) < |lines| ==>
              ZipRows(s, a, header, lines).Fail? && ZipRows(s, a, header, lines).error.FieldCountMismatch?
    decreases |lines|
  {
    var p := ReadRow(s, a, lines);
    if p.HasRow() && |header| == |p.result.value.value| {
      var after := lines[p.consumed..];
      ZipRowsStopsOnMismatch(s, a, header, after);
      if ZipRowsConsumed(s, a, header, after) < |after| {
        assert ZipRows(s, a, header, lines) == ZipRows(s, a, header, after);
      }
    }
  }

  /**
   * readWithHeader: the first row is the header; a duplicated name fails before any data
   * row is read; then the data rows as maps. An input without rows gives no maps.
   */
  function WithHeader(s: ReaderSettings, a: Assembler, lines: seq<string>): (r: Result<seq<map<string, string>>>)
    ensures var p := ReadRow(s, a, lines);
            r.Ok? && p.HasRow() ==>
              && Distinct(p.result.value.value)
              && forall m :: m in r.value ==> forall k :: k in m <==> k in p.result.value.value
  {
    var p := ReadRow(s, a, lines);
    match p.result
    case Fail(e) => Fail(e)
    case Ok(None) => Ok([])
    case Ok(Some(header)) =>
      FirstDuplicateSpec(header);
      match FirstDuplicate(header)
      case Some(d) => Fail(DuplicatedHeader(d))
      case None => ZipRows(s, a, header, lines[p.consumed..])
  }

  /**
   * How many lines readWithHeader takes before it stops: those of the header when a name
   * repeats, those of the header and of the data-row read otherwise, and all of them when
   * there is no header.
   */
  function WithHeaderConsumed(s: ReaderSettings, a: Assembler, lines: seq<string>): (n: nat)
    ensures n <= |lines|
  {
    var p := ReadRow(s, a, lines);
    if !p.HasRow() || FirstDuplicate(p.result.value.value).Some? then p.consumed
    else p.consumed + ZipRowsConsumed(s, a, p.result.value.value, lines[p.consumed..])
  }

  /**
   * readWithHeader uses up the input unless it fails on a repeated header name or on a
   * data row of the wrong size.
   */
  lemma WithHeaderStopsOnFailure(s: ReaderSettings, a: Assembler, lines: seq<string>)
    ensures WithHeaderConsumed(s, a, lines) < |lines| ==>
              && WithHeader(s, a, lines).Fail?
              && (WithHeader(s, a, lines).error.DuplicatedHeader? || WithHeader(s, a, lines).error.FieldCountMismatch?)
  {
    var p := ReadRow(s, a, lines);
    if p.HasRow() {
      var header := p.result.value.value;
      var after := lines[p.consumed..];
      if FirstDuplicate(header).None? {
        ZipRowsStopsOnMismatch(s, a, header, after);
        assert WithHeader(s, a, lines) == ZipRows(s, a, header, after);
      }
    }
  }

  /**
   * A successful readWithHeader has read every row: an input without rows gives no maps,
   * and otherwise there is one map per row after the header.
   */
  lemma WithHeaderReadsAll(s: ReaderSettings, a: Assembler, lines: seq<string>)
    ensures var r := WithHeader(s, a, lines);
            var rows := AllRows(s, a, lines);
            r.Ok? ==>
              && rows.Ok?
              && (rows.value == [] ==> r.value == [])
              && (rows.value != [] ==> |rows.value| == |r.value| + 1)
  {
    var p := ReadRow(s, a, lines);
    if p.HasRow() {
      ZipRowsReadsAll(s, a, p.result.value.value, lines[p.consumed..]);
    }
  }

  /**
   * A repeated header name fails the read before any data row is pulled, whatever the
   * lines after the header hold, and the error names the first name that repeats.
   */
  lemma WithHeaderDuplicate(s: ReaderSettings, a: Assembler, lines: seq<string>)
    ensures var p := ReadRow(s, a, lines);
            p.HasRow() ==>
              forall k: nat :: IsFirstRepeat(p.result.value.value, k) ==>
                && WithHeader(s, a, lines) == Fail(DuplicatedHeader(p.result.value.value[k]))
                && WithHeaderConsumed(s, a, lines) == p.consumed
  {
    var p := ReadRow(s, a, lines);
    if p.HasRow() {
      FirstDuplicateSpec(p.result.value.value);
    }
  }

  /** Past a first row of the right size, the first mismatch is one row earlier in the rest. */
  lemma FirstMismatchTail(header: Row, data: seq<Row>, k: nat)
    requires 0 < k && IsFirstMismatch(header, data, k)
    ensures |data[0]| == |header| && IsFirstMismatch(header, data[1..], k - 1)
  {
    forall j | 0 <= j < k - 1 ensures |data[1..][j]| == |header| {
      assert data[1..][j] == data[j + 1];
    }
  }

  /**
   * When the first `k + 1` data pulls yield rows and row `k` is the first whose size
   * differs from the header's, the data rows fail with that row's size, whatever the
   * lines after it hold.
   */
  lemma {:induction false} ZipRowsMismatch(s: ReaderSettings, a: Assembler, header: Row, lines: seq<string>, data: seq<Row>, k: nat)
    requires PullRows(s, a, lines, k + 1).Some? && PullRows(s, a, lines, k + 1).value.0 == data
    requires IsFirstMismatch(header, data, k)
    ensures ZipRows(s, a, header, lines) == Fail(FieldCountMismatch(|data[k]|, |header|))
    decreases k
  {
    var p := ReadRow(s, a, lines);
    var rest := lines[p.consumed..];
    assert p.HasRow() && data == [p.result.value.value] + PullRows(s, a, rest, k).value.0;
    if k > 0 {
      FirstMismatchTail(header, data, k);
      ZipRowsMismatch(s, a, header, rest, data[1..], k - 1);
    }
  }

  /**
   * Under the same conditions, the data-row read stops right after the mismatched row:
   * the lines it leaves are those after the first `k + 1` pulls.
   */
  lemma {:induction false} ZipRowsStopsAfterMismatch(s: ReaderSettings, a: Assembler, header: Row, lines: seq<string>, data: seq<Row>, k: nat)
    requires PullRows(s, a, lines, k + 1).Some? && PullRows(s, a, lines, k + 1).value.0 == data
    requires IsFirstMismatch(header, data, k)
    ensures lines[ZipRowsConsumed(s, a, header, lines)..] == PullRows(s, a, lines, k + 1).value.1
    decreases k
  {
    var p := ReadRow(s, a, lines);
    var rest := lines[p.consumed..];
    PullRowsFirst(s, a, lines, k);
    ZipRowsConsumedFirst(s, a, header, lines);
    if k > 0 {
      FirstMismatchTail(header, data, k);
      ZipRowsStopsAfterMismatch(s, a, header, rest, data[1..], k - 1);
      var c := ZipRowsConsumed(s, a, header, rest);
      assert lines[p.consumed + c..] == rest[c..];
    }
  }

  /**
   * With a header of distinct names, the read fails on the first data row whose size
   * differs from the header's, reporting both sizes, whatever the lines after it hold.
   */
  lemma WithHeaderMismatch(s: ReaderSettings, a: Assembler, lines: seq<string>, header: Row, data: seq<Row>, k: nat)
    requires ReadRow(s, a, lines).result == Ok(Some(header)) && Distinct(header)
    requires var rest := lines[ReadRow(s, a, lines).consumed..];
             PullRows(s, a, rest, k + 1).Some? && PullRows(s, a, rest, k + 1).value.0 == data
    requires IsFirstMismatch(header, data, k)
    ensures WithHeader(s, a, lines) == Fail(FieldCountMismatch(|data[k]|, |header|))
    ensures lines[WithHeaderConsumed(s, a, lines)..] == PullRows(s, a, lines[ReadRow(s, a, lines).consumed..], k + 1).value.1
  {
    var c := ReadRow(s, a, lines).consumed;
    var rest := lines[c..];
    FirstDuplicateSpec(header);
    ZipRowsMismatch(s, a, header, rest, data, k);
    ZipRowsStopsAfterMismatch(s, a, header, rest, data, k);
    assert WithHeaderConsumed(s, a, lines) == c + ZipRowsConsumed(s, a, header, rest);
    assert lines[c + ZipRowsConsumed(s, a, header, rest)..] == rest[ZipRowsConsumed(s, a, header, rest)..];
  }

  // ---------------------------------------------------------------------------
  // The same checks on rows that have all been read

  /** Checks each row's size against the header, first to last, and zips the rows. */
  function CheckRows(header: Row, rows: seq<Row>): Result<seq<map<string, string>>>
  {
    if rows == [] then Ok([])
    else if |rows[0]| != |header| then Fail(FieldCountMismatch(|rows[0]|, |header|))
    else
      match CheckRows(header, rows[1..])
      case Fail(e) => Fail(e)
      case Ok(ms) => Ok([ZipToMap(header, rows[0])] + ms)
  }

  /** `rows[k]` is the first row whose size differs from the header's. */
  predicate IsFirstMismatch(header: Row, rows: seq<Row>, k: nat)
  {
    k < |rows| && |rows[k]| != |header| && forall j :: 0 <= j < k ==> |rows[j]| == |header|
  }

  /**
   * Checking the rows succeeds exactly when every row has as many fields as the header,
   * gives then one map per row, in order, and otherwise fails on the first row that does
   * not, reporting its size and the header's.
   */
  lemma {:induction false} CheckRowsSpec(header: Row, rows: seq<Row>)
    ensures CheckRows(header, rows).Ok? <==> forall i :: 0 <= i < |rows| ==> |rows[i]| == |header|
    ensures CheckRows(header, rows).Ok? ==>
              && |CheckRows(header, rows).value| == |rows|
              && forall i :: 0 <= i < |rows| ==> CheckRows(header, rows).value[i] == ZipToMap(header, rows[i])
    ensures forall k: nat :: IsFirstMismatch(header, rows, k) ==>
              CheckRows(header, rows) == Fail(FieldCountMismatch(|rows[k]|, |header|))
    decreases |rows|
  {
    if rows != [] {
      CheckRowsSpec(header, rows[1..]);
      forall k: nat | IsFirstMismatch(header, rows, k)
        ensures CheckRows(header, rows) == Fail(FieldCountMismatch(|rows[k]|, |header|))
      {
        if k > 0 {
          assert IsFirstMismatch(header, rows[1..], k - 1);
        }
      }
      if CheckRows(header, rows).Ok? {
        var ms := CheckRows(header, rows).value;
        forall i | 0 <= i < |rows| ensures ms[i] == ZipToMap(header, rows[i]) {
          if i > 0 {
            assert ms[i] == CheckRows(header, rows[1..]).value[i - 1];
          }
        }
      }
    }
  }

  /** readWithHeader on rows that have all been read: header check first, then the rows. */
  function Validate(rows: seq<Row>): Result<seq<map<string, string>>>
  {
    if rows == [] then Ok([])
    else
      match FirstDuplicate(rows[0])
      case Some(d) => Fail(DuplicatedHeader(d))
      case None => CheckRows(rows[0], rows[1..])
  }

  lemma {:induction false} ZipRowsStaged(s: ReaderSettings, a: Assembler, header: Row, lines: seq<string>)
    requires AllRows(s, a, lines).Ok?
    ensures ZipRows(s, a, header, lines) == CheckRows(header, AllRows(s, a, lines).value)
    decreases |lines|
  {
    var p := ReadRow(s, a, lines);
    if p.HasRow() {
      var rest := lines[p.consumed..];
      ZipRowsStaged(s, a, header, rest);
      var rows := AllRows(s, a, lines).value;
      assert rows == [p.result.value.value] + AllRows(s, a, rest).value;
      assert rows[1..] == AllRows(s, a, rest).value;
    }
  }

  /**
   * Checking rows as they are pulled gives what checking them after reading them all
   * gives, whenever all the rows can be read.
   */
  lemma WithHeaderStaged(s: ReaderSettings, a: Assembler, lines: seq<string>)
    requires AllRows(s, a, lines).Ok?
    ensures WithHeader(s, a, lines) == Validate(AllRows(s, a, lines).value)
  {
    var p := ReadRow(s, a, lines);
    if p.HasRow() {
      var rest := lines[p.consumed..];
      var rows := AllRows(s, a, lines).value;
      assert rows == [p.result.value.value] + AllRows(s, a, rest).value;
      assert rows[1..] == AllRows(s, a, rest).value;
      ZipRowsStaged(s, a, p.result.value.value, rest);
    }
  }

  /**
   * What readWithHeader produces from an input whose rows are `header` followed by
   * `data`: it succeeds exactly when the header names are distinct and every data row has
   * as many fields as the header; each map then has exactly the header names as keys and
   * maps the name at position j to field j of its row. A duplicated name fails with the
   * first one repeated; otherwise the first row of the wrong size fails with its size.
   */
  lemma ReadWithHeaderSpec(s: ReaderSettings, a: Assembler, lines: seq<string>, header: Row, data: seq<Row>)
    requires AllRows(s, a, lines) == Ok([header] + data)
    ensures WithHeader(s, a, lines).Ok? <==>
              Distinct(header) && forall i :: 0 <= i < |data| ==> |data[i]| == |header|
    ensures WithHeader(s, a, lines).Ok? ==>
              var ms := WithHeader(s, a, lines).value;
              && |ms| == |data|
              && forall i :: 0 <= i < |data| ==>
                   && (forall k :: k in ms[i] <==> k in header)
                   && |ms[i]| == |header|
                   && forall j :: 0 <= j < |header| ==> ms[i][header[j]] == data[i][j]
    ensures forall k: nat :: IsFirstRepeat(header, k) ==> WithHeader(s, a, lines) == Fail(DuplicatedHeader(header[k]))
    ensures Distinct(header) ==>
              forall k: nat :: IsFirstMismatch(header, data, k) ==>
                WithHeader(s, a, lines) == Fail(FieldCountMismatch(|data[k]|, |header|))
  {
    WithHeaderStaged(s, a, lines);
    var rows := [header] + data;
    assert rows[0] == header && rows[1..] == data;
    FirstDuplicateSpec(header);
    CheckRowsSpec(header, data);
    if WithHeader(s, a, lines).Ok? {
      var ms := WithHeader(s, a, lines).value;
      forall i | 0 <= i < |data|
        ensures && (forall k :: k in ms[i] <==> k in header)
                && |ms[i]| == |header|
                && forall j :: 0 <= j < |header| ==> ms[i][header[j]] == data[i][j]
      {
        ZipToMapSpec(header, data[i]);
      }
    }
  }

  /** An input without rows gives no maps and no error. */
  lemma ReadWithHeaderEmpty(s: ReaderSettings, a: Assembler, lines: seq<string>)
    requires AllRows(s, a, lines) == Ok([])
    ensures WithHeader(s, a, lines) == Ok([])
  {
    WithHeaderStaged(s, a, lines);
  }
}
