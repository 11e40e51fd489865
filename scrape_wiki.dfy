/**
 * The row loop of the heat-capacity table scraper. The table arrives as a
 * sequence of rows, each a caption cell (the unnamed column) and a value cell
 * (the `J/(mol·K)` column); the loop turns every row whose caption starts with
 * '<' into an element record, taking the value from the row after it.
 */
module ScrapeWiki {
  import opened Wrappers
  import opened PyStr

  /** A value cell: a number the table reader already parsed, or raw text. */
  datatype Cell = Float(x: real) | Text(s: string)

  datatype Row = Row(caption: string, value: Cell)

  /**
   * One element record. `c` is the value cell as found, or, for a text cell,
   * the last token of the text: the string `float()` is applied to.
   */
  datatype Element = Element(number: int, abbr: string, fullName: string, remark: string, c: Cell)

  /** Why a run aborts; `row` is the index of the qualifying row being parsed. */
  datatype ScrapeError =
    | MissingMarker(row: nat)   // `description.index('>')` raises ValueError
    | NoNextRow(row: nat)       // `raw.rows[index+1]` raises IndexError
    | EmptyValue(row: nat)      // `c.split()[-1]` raises IndexError
    | TooFewTokens(row: nat)    // unpacking into `number, abbr, full_name, *remark` raises ValueError
    | NotAnInteger(row: nat)    // `int(number)` raises ValueError

  predicate Qualifies(row: Row) {
    StartsWith(row.caption, '<')
  }

  /** The description: the caption from two characters past its first '>'. */
  function Description(caption: string): (d: Option<string>)
    ensures d.None? <==> '>' !in caption
  {
    match IndexOf(caption, '>')
    case None => None
    case Some(k) => Some(Drop(caption, k + 2))
  }

  /** Whatever comes before the first '>' and the one character after it is cut away. */
  lemma DescriptionAfterMarker(before: string, gap: char, rest: string)
    requires '>' !in before
    ensures Description(before + ['>', gap] + rest) == Some(rest)
  {
    var caption := before + ['>', gap] + rest;
    assert caption[|before|] == '>';
    assert caption[..|before|] == before;
    assert caption[|before| + 2..] == rest;
  }

  /** A caption ending in its first '>' has an empty description: the slice starts past the end. */
  lemma DescriptionMarkerAtEnd(before: string)
    requires '>' !in before
    ensures Description(before + ">") == Some("")
  {
    var caption := before + ">";
    assert caption[|before|] == '>';
    assert caption[..|before|] == before;
  }

  /** The value the record keeps: a parsed number as is, or the last token of a text cell. */
  function CellValue(cell: Cell): (r: Option<Cell>)
    ensures cell.Float? ==> r == Some(cell)
    ensures cell.Text? ==> (r.None? <==> AllSpace(cell.s))
    ensures r.Some? && cell.Text? ==> r.value.Text? && IsWord(r.value.s) && r.value.s in Split(cell.s)
  {
    match cell
    case Float(_) => Some(cell)
    case Text(s) =>
      var ts := Split(s);
      SplitEmpty(s);
      if ts == [] then None else Some(Text(ts[|ts| - 1]))
  }

  /**
   * Only the last token of a text cell is kept: whatever ends in whitespace
   * before it is ignored, and so is trailing whitespace after it.
   */
  lemma CellValueLastToken(prefix: string, token: string, trail: string)
    requires IsWord(token) && AllSpace(trail)
    requires prefix == [] || IsSpace(prefix[|prefix| - 1])
    ensures CellValue(Text(prefix + token + trail)) == Some(Text(token))
  {
    SplitEmpty(trail);
    if trail == [] {
      SplitWord(token);
      assert token + trail == token;
    } else {
      SplitWordThen(token, trail);
    }
    assert Split(token + trail) == [token];
    if prefix == [] {
      assert prefix + token + trail == token + trail;
    } else {
      var p := prefix[..|prefix| - 1];
      var sep := prefix[|prefix| - 1];
      assert prefix + token + trail == p + [sep] + (token + trail);
      SplitAtSpace(p, sep, token + trail);
    }
  }

  /** A text cell with no token in it, where `c.split()[-1]` raises. */
  predicate BlankText(cell: Cell) {
    cell.Text? && AllSpace(cell.s)
  }

  /** The whitespace-separated words of the description of a caption that has one. */
  function DescriptionTokens(caption: string): seq<string>
    requires '>' in caption
  {
    Split(Description(caption).value)
  }

  /**
   * The record for qualifying row `i`, or the error that aborts the run there.
   * The checks come in the order the source makes them: the '>' marker, the
   * next row, its value, the number of description words, the integer.
   */
  function ParseRow(rows: seq<Row>, i: nat): (r: Result<Element, ScrapeError>)
    requires i < |rows| && Qualifies(rows[i])
    ensures r.Failure? ==> r.error.row == i
    ensures '>' !in rows[i].caption ==> r == Failure(MissingMarker(i))
    ensures '>' in rows[i].caption && i + 1 == |rows| ==> r == Failure(NoNextRow(i))
    ensures '>' in rows[i].caption && i + 1 < |rows| && BlankText(rows[i + 1].value)
            ==> r == Failure(EmptyValue(i))
    ensures '>' in rows[i].caption && i + 1 < |rows| && !BlankText(rows[i + 1].value)
            && |DescriptionTokens(rows[i].caption)| < 3
            ==> r == Failure(TooFewTokens(i))
    ensures '>' in rows[i].caption && i + 1 < |rows| && !BlankText(rows[i + 1].value)
            && |DescriptionTokens(rows[i].caption)| >= 3 && !IntLiteral(DescriptionTokens(rows[i].caption)[0])
            ==> r == Failure(NotAnInteger(i))
    ensures r.Success? <==>
              && '>' in rows[i].caption && i + 1 < |rows| && !BlankText(rows[i + 1].value)
              && |DescriptionTokens(rows[i].caption)| >= 3 && IntLiteral(DescriptionTokens(rows[i].caption)[0])
    ensures r.Success? ==>
              && '>' in rows[i].caption && i + 1 < |rows|
              && var ts := DescriptionTokens(rows[i].caption);
              && |ts| >= 3
              && ParseInt(ts[0]) == Some(r.value.number)
              && r.value.abbr == ts[1]
              && r.value.fullName == ts[2]
              && r.value.remark == Join(ts[3..])
              && Split(r.value.remark) == ts[3..]
              && (r.value.remark == "" <==> |ts| == 3)
              && CellValue(rows[i + 1].value) == Some(r.value.c)
  {
    match Description(rows[i].caption)
    case None => Failure(MissingMarker(i))
    case Some(description) =>
      if i + 1 >= |rows| then Failure(NoNextRow(i))
      else
        match CellValue(rows[i + 1].value)
        case None => Failure(EmptyValue(i))
        case Some(c) =>
          var tokens := Split(description);
          if |tokens| < 3 then Failure(TooFewTokens(i))
          else
            match ParseInt(tokens[0])
            case None => Failure(NotAnInteger(i))
            case Some(number) =>
              var remark := tokens[3..];
              assert AllWords(remark) by {
                forall k | 0 <= k < |remark| ensures IsWord(remark[k]) { assert remark[k] == tokens[k + 3]; }
              }
              SplitJoin(remark);
              Success(Element(number, tokens[1], tokens[2], Join(remark), c))
  }

  /** The records of rows `0 .. n-1`, or the first error among them. */
  function ScrapePrefix(rows: seq<Row>, n: nat): Result<seq<Element>, ScrapeError>
    requires n <= |rows|
  {
    if n == 0 then Success([])
    else
      match ScrapePrefix(rows, n - 1)
      case Failure(e) => Failure(e)
      case Success(elements) =>
        if !Qualifies(rows[n - 1]) then Success(elements)
        else
          match ParseRow(rows, n - 1)
          case Failure(e) => Failure(e)
          case Success(element) => Success(elements + [element])
  }

  /** The run over the whole table: the element list written out, or the error that aborts it. */
  function Scrape(rows: seq<Row>): (r: Result<seq<Element>, ScrapeError>)
    ensures r.Success? ==> |r.value| == |QualifyingRows(rows)|
    ensures r.Failure? ==> r.error.row < |rows| && Qualifies(rows[r.error.row]) && ParseRow(rows, r.error.row) == Failure(r.error)
  {
    if ScrapePrefix(rows, |rows|).Failure? then
      ScrapePrefixFirstError(rows, |rows|);
      ScrapePrefix(rows, |rows|)
    else
      ScrapePrefixRecords(rows, |rows|);
      ScrapePrefix(rows, |rows|)
  }

  /** The positions below `n` of the rows that qualify, in increasing order. */
  function QualifyingBelow(rows: seq<Row>, n: nat): (q: seq<nat>)
    requires n <= |rows|
    ensures forall k :: 0 <= k < |q| ==> q[k] < n && Qualifies(rows[q[k]])
    ensures forall i :: 0 <= i < n && Qualifies(rows[i]) ==> i in q
    ensures forall k, l :: 0 <= k < l < |q| ==> q[k] < q[l]
  {
    if n == 0 then []
    else
      var q := QualifyingBelow(rows, n - 1);
      if Qualifies(rows[n - 1]) then q + [n - 1] else q
  }

  function QualifyingRows(rows: seq<Row>): seq<nat> {
    QualifyingBelow(rows, |rows|)
  }

  /** Every qualifying row below `n` parses. */
  predicate PrefixParses(rows: seq<Row>, n: nat)
    requires n <= |rows|
  {
    forall i :: 0 <= i < n && Qualifies(rows[i]) ==> ParseRow(rows, i).Success?
  }

  lemma {:induction false} ScrapePrefixSucceeds(rows: seq<Row>, n: nat)
    requires n <= |rows|
    ensures ScrapePrefix(rows, n).Success? <==> PrefixParses(rows, n)
  {
    if n > 0 {
      ScrapePrefixSucceeds(rows, n - 1);
    }
  }

  lemma {:induction false} ScrapePrefixRecords(rows: seq<Row>, n: nat)
    requires n <= |rows|
    requires ScrapePrefix(rows, n).Success?
    ensures var es := ScrapePrefix(rows, n).value;
            var q := QualifyingBelow(rows, n);
            && |es| == |q|
            && forall k :: 0 <= k < |q| ==> ParseRow(rows, q[k]).Success? && es[k] == ParseRow(rows, q[k]).value
  {
    if n > 0 {
      var prev := ScrapePrefix(rows, n - 1);
      assert prev.Success?;
      ScrapePrefixRecords(rows, n - 1);
      var q := QualifyingBelow(rows, n - 1);
      if Qualifies(rows[n - 1]) {
        var e := ParseRow(rows, n - 1);
        assert e.Success?;
        var es := prev.value + [e.value];
        assert ScrapePrefix(rows, n) == Success(es);
        var q' := q + [n - 1];
        assert QualifyingBelow(rows, n) == q';
        forall k | 0 <= k < |q'| ensures ParseRow(rows, q'[k]).Success? && es[k] == ParseRow(rows, q'[k]).value {
          if k < |q| {
            assert es[k] == prev.value[k];
            assert q'[k] == q[k];
          }
        }
      }
    }
  }

  /**
   * A run succeeds exactly when every qualifying row parses, and then it
   * yields one record per qualifying row, in row order; other rows add nothing.
   */
  lemma ScrapeRecords(rows: seq<Row>)
    ensures Scrape(rows).Success? <==> forall i :: 0 <= i < |rows| && Qualifies(rows[i]) ==> ParseRow(rows, i).Success?
    ensures Scrape(rows).Success? ==>
              var es := Scrape(rows).value;
              var q := QualifyingRows(rows);
              && |es| == |q|
              && forall k :: 0 <= k < |q| ==> es[k] == ParseRow(rows, q[k]).value
  {
    ScrapePrefixSucceeds(rows, |rows|);
    if Scrape(rows).Success? {
      ScrapePrefixRecords(rows, |rows|);
    }
  }

  lemma {:induction false} ScrapePrefixFirstError(rows: seq<Row>, n: nat)
    requires n <= |rows|
    requires ScrapePrefix(rows, n).Failure?
    ensures var e := ScrapePrefix(rows, n).error;
            && e.row < n
            && Qualifies(rows[e.row])
            && ParseRow(rows, e.row) == Failure(e)
            && PrefixParses(rows, e.row)
  {
    if ScrapePrefix(rows, n - 1).Failure? {
      ScrapePrefixFirstError(rows, n - 1);
    } else {
      ScrapePrefixSucceeds(rows, n - 1);
    }
  }

  /** A failed run reports the error of the first qualifying row that does not parse. */
  lemma ScrapeFirstError(rows: seq<Row>)
    requires Scrape(rows).Failure?
    ensures var e := Scrape(rows).error;
            && e.row < |rows|
            && Qualifies(rows[e.row])
            && ParseRow(rows, e.row) == Failure(e)
            && forall j :: 0 <= j < e.row && Qualifies(rows[j]) ==> ParseRow(rows, j).Success?
  {
    ScrapePrefixFirstError(rows, |rows|);
  }

  /** A qualifying last row has no row to take its value from, so the run always aborts. */
  lemma ScrapeQualifyingLastRow(rows: seq<Row>)
    requires |rows| > 0 && Qualifies(rows[|rows| - 1])
    ensures Scrape(rows).Failure?
  {
    ScrapeRecords(rows);
  }

  /** Helper for the loop: a qualifying row whose checks all pass gives the record built from its parts. */
  lemma ParseRowParts(rows: seq<Row>, i: nat, d: string, number: int, c: Cell)
    requires i + 1 < |rows| && Qualifies(rows[i])
    requires Description(rows[i].caption) == Some(d)
    requires CellValue(rows[i + 1].value) == Some(c)
    requires |Split(d)| >= 3 && ParseInt(Split(d)[0]) == Some(number)
    ensures var ts := Split(d);
            ParseRow(rows, i) == Success(Element(number, ts[1], ts[2], Join(ts[3..]), c))
  {
  }

  /**
   * Writing a record out as a table caption and reading it back gives the
   * record: a caption `<...> N Abbr Name remark words` with the value cell on
   * the next row, as in `<x> 26 Fe Iron (some remark)`, parses to N, Abbr,
   * Name and the remark words joined by single spaces.
   */
  lemma ParseRowRoundTrip(rows: seq<Row>, i: nat, before: string, gap: char,
                          number: int, abbr: string, fullName: string, remark: seq<string>)
    requires i + 1 < |rows| && rows[i + 1].value.Float?
    requires StartsWith(before, '<') && '>' !in before
    requires IsWord(abbr) && IsWord(fullName) && AllWords(remark)
    requires rows[i].caption == before + ['>', gap] + Join([ShowInt(number), abbr, fullName] + remark)
    ensures Qualifies(rows[i])
    ensures ParseRow(rows, i) == Success(Element(number, abbr, fullName, Join(remark), rows[i + 1].value))
  {
    var ws := [ShowInt(number), abbr, fullName] + remark;
    assert rows[i].caption[0] == before[0];
    DescriptionAfterMarker(before, gap, Join(ws));
    ParseIntShowInt(number);
    ShowIntIsWord(number);
    AllWordsPrefixed(ShowInt(number), abbr, fullName, remark);
    SplitJoin(ws);
    ParseRowParts(rows, i, Join(ws), number, rows[i + 1].value);
    assert ws[3..] == remark;
  }

  lemma AllWordsPrefixed(a: string, b: string, c: string, rest: seq<string>)
    requires IsWord(a) && IsWord(b) && IsWord(c) && AllWords(rest)
    ensures AllWords([a, b, c] + rest)
  {
    var ws := [a, b, c] + rest;
    forall k | 0 <= k < |ws| ensures IsWord(ws[k]) {
      if k >= 3 { assert ws[k] == rest[k - 3]; }
    }
  }

  /** Once a prefix of the run has failed, every longer prefix fails with the same error. */
  lemma {:induction false} ScrapePrefixFailureSticks(rows: seq<Row>, n: nat, m: nat)
    requires n <= m <= |rows|
    requires ScrapePrefix(rows, n).Failure?
    ensures ScrapePrefix(rows, m) == ScrapePrefix(rows, n)
    decreases m - n
  {
    if n < m {
      ScrapePrefixFailureSticks(rows, n + 1, m);
    }
  }

  /**
   * The scraper's loop: walks the rows by index, skips those whose caption
   * does not start with '<', and appends one record per qualifying row.
   */
  method ScrapeElements(rows: seq<Row>) returns (r: Result<seq<Element>, ScrapeError>)
    ensures r == Scrape(rows)
  {
    var elements: seq<Element> := [];
    var index := 0;
    while index < |rows|
      invariant 0 <= index <= |rows|
      invariant ScrapePrefix(rows, index) == Success(elements)
    {
      var row := rows[index];
      if StartsWith(row.caption, '<') {
        var cut := IndexOf(row.caption, '>');
        if cut.None? {
          assert ParseRow(rows, index) == Failure(MissingMarker(index));
          ScrapePrefixFailureSticks(rows, index + 1, |rows|);
          return Failure(MissingMarker(index));
        }
        var description := Drop(row.caption, cut.value + 2);
        assert Description(row.caption) == Some(description);
        if index + 1 >= |rows| {
          assert ParseRow(rows, index) == Failure(NoNextRow(index));
          ScrapePrefixFailureSticks(rows, index + 1, |rows|);
          return Failure(NoNextRow(index));
        }
        var c := rows[index + 1].value;
        if c.Text? {
          var parts := Split(c.s);
          if parts == [] {
            assert ParseRow(rows, index) == Failure(EmptyValue(index));
            ScrapePrefixFailureSticks(rows, index + 1, |rows|);
            return Failure(EmptyValue(index));
          }
          c := Text(parts[|parts| - 1]);
        }
        assert CellValue(rows[index + 1].value) == Some(c);
        var tokens := Split(description);
        if |tokens| < 3 {
          assert ParseRow(rows, index) == Failure(TooFewTokens(index));
          ScrapePrefixFailureSticks(rows, index + 1, |rows|);
          return Failure(TooFewTokens(index));
        }
        var number := ParseInt(tokens[0]);
        if number.None? {
          assert ParseRow(rows, index) == Failure(NotAnInteger(index));
          ScrapePrefixFailureSticks(rows, index + 1, |rows|);
          return Failure(NotAnInteger(index));
        }
        var element := Element(number.value, tokens[1], tokens[2], Join(tokens[3..]), c);
        ParseRowParts(rows, index, description, number.value, c);
        elements := elements + [element];
      }
      index := index + 1;
    }
    return Success(elements);
  }
}
