/** Validation and field extraction of one CSV row in `etl_process` of
    netflix-etl-mysql.py.  A row is the list of cells `csv.reader` yields; the
    twelve columns are show_id, type, title, director, cast, country,
    date_added, release_year, rating, duration-or-seasons, listed_in and
    description.  Everything here is pure: the effect of an accepted row on
    the database is modelled in NetflixTables. */
module NetflixRows {
  import opened Wrappers
  import opened Text
  import opened Dates

  /** The number of columns a row must have (`expected_cols`). */
  const ExpectedColumns: nat := 12

  /** The non-key columns of one row of the `shows` table; `None` is SQL `NULL`. */
  datatype ShowRecord = ShowRecord(
    itemType: string,
    title: string,
    dateAddedDay: Option<string>,
    dateAddedYear: Option<int>,
    releaseYear: int,
    rating: string,
    duration: Option<nat>,
    seasons: Option<nat>,
    description: string)

  /** Everything `etl_process` extracts from an accepted row: the `shows` key
      and record, and the four name lists to be linked to the show. */
  datatype ParsedRow = ParsedRow(
    showId: string,
    record: ShowRecord,
    directors: seq<string>,
    castMembers: seq<string>,
    countries: seq<string>,
    genres: seq<string>)

  /** What happens to one row: one of the four ways it is skipped, or accepted. */
  datatype RowOutcome =
    | SkippedEmpty
    | SkippedHeader
    | TooFewColumns(count: nat)
    | BadReleaseYear(text: string)
    | Accepted(parsed: ParsedRow)

  /** The header test on the first cell: `'show_id' in row[0].lower()`. */
  predicate IsHeaderCell(cell: string) {
    Contains(Lower(cell), "show_id")
  }

  /** The header test ignores case and what surrounds the column name: a
      first cell holding `show_id` in any mix of cases is a header. */
  lemma HeaderInAnyCase(pre: string, name: string, post: string)
    requires Lower(name) == "show_id"
    ensures IsHeaderCell(pre + name + post)
  {
    var low := Lower(pre + name + post);
    LowerAppend(pre + name, post);
    LowerAppend(pre, name);
    assert low == Lower(pre) + "show_id" + Lower(post);
    assert low[|pre|..|pre| + 7] == "show_id";
    assert OccursAt(low, "show_id", |pre|);
    ContainsAt(low, "show_id");
  }

  /** A padded upper-case header cell is a header. */
  lemma PaddedHeaderCell()
    ensures IsHeaderCell(" SHOW_ID")
  {
    assert Lower(" SHOW_ID") == " show_id";
    assert " show_id"[1..8] == "show_id";
    assert OccursAt(" show_id", "show_id", 1);
    ContainsAt(" show_id", "show_id");
  }

  /** A mixed-case header cell is a header. */
  lemma MixedCaseHeaderCell()
    ensures IsHeaderCell("Show_Id")
  {
    assert Lower("Show_Id") == "show_id";
    HeaderInAnyCase("", "Show_Id", "");
    assert "" + "Show_Id" + "" == "Show_Id";
  }

  /** A show id is not a header. */
  lemma ShowIdNotHeaderCell()
    ensures !IsHeaderCell("s1")
  {
  }

  /** A name as it is stored: non-empty, stripped, and free of the separator. */
  predicate IsName(n: string) {
    n != "" && IsStripped(n) && ',' !in n
  }

  /** Stripping adds no characters. */
  lemma StripKeepsOut(s: string, c: char)
    requires c !in s
    ensures c !in Strip(s)
  {
    var w1, w2 := StripDecompose(s);
    assert forall k :: 0 <= k < |Strip(s)| ==> Strip(s)[k] == s[|w1| + k];
  }

  /** The names among the pieces of a split column, in order: each piece is
      stripped and the empty ones are dropped (`if name:`). */
  function NamesOf(pieces: seq<string>): (r: seq<string>)
    ensures |r| <= |pieces|
  {
    if pieces == [] then []
    else
      var name := Strip(pieces[0]);
      (if name == "" then [] else [name]) + NamesOf(pieces[1..])
  }

  /** The names of the pieces from `i` on: those of piece `i`, then the rest. */
  lemma NamesOfFrom(pieces: seq<string>, i: nat)
    requires i < |pieces|
    ensures NamesOf(pieces[i..])
         == (if Strip(pieces[i]) == "" then [] else [Strip(pieces[i])]) + NamesOf(pieces[i + 1..])
  {
    assert pieces[i..][0] == pieces[i] && pieces[i..][1..] == pieces[i + 1..];
  }

  /** Pieces free of the separator give well-formed names. */
  lemma {:induction false} NamesOfAreNames(pieces: seq<string>)
    requires forall j :: 0 <= j < |pieces| ==> ',' !in pieces[j]
    ensures forall i :: 0 <= i < |NamesOf(pieces)| ==> IsName(NamesOf(pieces)[i])
  {
    if pieces != [] {
      StripKeepsOut(pieces[0], ',');
      assert forall j :: 0 <= j < |pieces[1..]| ==> pieces[1..][j] == pieces[j + 1];
      NamesOfAreNames(pieces[1..]);
    }
  }

  /** A text is among the names exactly when it is non-empty and some piece
      strips to it. */
  lemma {:induction false} NamesOfMembers(pieces: seq<string>, name: string)
    ensures name in NamesOf(pieces) <==> name != "" && exists j :: 0 <= j < |pieces| && Strip(pieces[j]) == name
  {
    if pieces != [] {
      NamesOfMembers(pieces[1..], name);
      assert forall j :: 0 <= j < |pieces[1..]| ==> pieces[1..][j] == pieces[j + 1];
      if name != "" && Strip(pieces[0]) != name && (exists j :: 0 <= j < |pieces| && Strip(pieces[j]) == name) {
        var j :| 0 <= j < |pieces| && Strip(pieces[j]) == name;
        assert j > 0 && Strip(pieces[1..][j - 1]) == name;
      }
    }
  }

  /** A name-list column (`directors_str` and the others): split on `,`,
      strip each piece and drop the empty ones; an empty column is not split
      and gives no names. */
  function ParseNames(column: string): (names: seq<string>)
    ensures column == "" ==> names == []
  {
    if column == "" then [] else NamesOf(Split(column, ','))
  }

  /** Every name of a column is non-empty, stripped and free of `,`. */
  lemma ParseNamesAreNames(column: string)
    ensures forall i :: 0 <= i < |ParseNames(column)| ==> IsName(ParseNames(column)[i])
  {
    if column != "" {
      NamesOfAreNames(Split(column, ','));
    }
  }

  /** The names of a column are exactly its non-empty stripped pieces. */
  lemma ParseNamesMembers(column: string, name: string)
    ensures name in ParseNames(column) <==>
              name != "" && exists j :: 0 <= j < |Split(column, ',')| && Strip(Split(column, ',')[j]) == name
  {
    if column == "" {
      assert Split(column, ',') == [""];
      assert Strip("") == "";
    } else {
      var pieces := Split(column, ',');
      assert ParseNames(column) == NamesOf(pieces);
      NamesOfMembers(pieces, name);
      if name in NamesOf(pieces) {
        var j :| 0 <= j < |pieces| && Strip(pieces[j]) == name;
        assert 0 <= j < |Split(column, ',')| && Strip(Split(column, ',')[j]) == name;
      }
    }
  }

  /** Column 9: the first number of the text is the running time of a
      "Movie" or the number of seasons of a "TV Show"; any other type, or a
      text without digits, leaves both `NULL`. */
  function DurationAndSeasons(itemType: string, raw: string): (r: (Option<nat>, Option<nat>))
    ensures r.0.Some? <==> itemType == "Movie" && FirstDigitRun(raw).Some?
    ensures r.1.Some? <==> itemType == "TV Show" && FirstDigitRun(raw).Some?
    ensures r.0.Some? ==> r.0 == FirstNumber(raw)
    ensures r.1.Some? ==> r.1 == FirstNumber(raw)
  {
    if itemType == "Movie" then (FirstNumber(raw), None)
    else if itemType == "TV Show" then (None, FirstNumber(raw))
    else (None, None)
  }

  /** Column 6: a date that `strptime` accepts gives the zero-padded day and
      the year; an empty or unparseable text gives two `NULL`s and does not
      reject the row. */
  function DateAddedFields(text: string): (r: (Option<string>, Option<int>))
    ensures r.0.Some? <==> ParseIsoDate(text).Some?
    ensures r.1.Some? <==> ParseIsoDate(text).Some?
    ensures text == "" ==> r == (None, None)
    ensures r.0.Some? ==> |r.0.value| == 2 && AllDigits(r.0.value) && DigitsValue(r.0.value) == ParseIsoDate(text).value.day
    ensures r.1.Some? ==> r.1.value == ParseIsoDate(text).value.year
  {
    if text == "" then (None, None)
    else
      match ParseIsoDate(text)
      case None => (None, None)
      case Some(d) => (Some(DayString(d)), Some(d.year))
  }

  /** A date written `YYYY-MM-DD` is stored as its two-digit day and its year. */
  lemma DateAddedOfIsoDate(d: Date)
    requires ValidDate(d)
    ensures DateAddedFields(FormatIsoDate(d)) == (Some(Pad2(d.day)), Some(d.year))
  {
    ParseFormatRoundTrip(d);
  }

  /** The shape of every accepted row: all text fields and names stripped,
      names non-empty, duration only for movies, seasons only for TV shows,
      and a date day of two digits. */
  predicate WellFormed(p: ParsedRow) {
    && IsStripped(p.showId) && IsStripped(p.record.itemType) && IsStripped(p.record.title)
    && IsStripped(p.record.rating) && IsStripped(p.record.description)
    && (p.record.duration.Some? ==> p.record.itemType == "Movie")
    && (p.record.seasons.Some? ==> p.record.itemType == "TV Show")
    && (p.record.dateAddedDay.Some? <==> p.record.dateAddedYear.Some?)
    && (p.record.dateAddedDay.Some? ==> |p.record.dateAddedDay.value| == 2)
    && (forall i :: 0 <= i < |p.directors| ==> IsName(p.directors[i]))
    && (forall i :: 0 <= i < |p.castMembers| ==> IsName(p.castMembers[i]))
    && (forall i :: 0 <= i < |p.countries| ==> IsName(p.countries[i]))
    && (forall i :: 0 <= i < |p.genres| ==> IsName(p.genres[i]))
  }

  /** The body of the `try` block for a row of exactly twelve cells: every
      cell is stripped, and a release year that `int()` rejects raises
      `ValueError`, which skips the whole row. */
  function ParseFields(f: seq<string>): (r: RowOutcome)
    requires |f| == ExpectedColumns
    ensures r.Accepted? <==> ParseInt(Strip(f[7])).Some?
    ensures !r.Accepted? ==> r == BadReleaseYear(Strip(f[7]))
    ensures r.Accepted? ==> WellFormed(r.parsed)
  {
    ParseNamesAreNames(Strip(f[3]));
    ParseNamesAreNames(Strip(f[4]));
    ParseNamesAreNames(Strip(f[5]));
    ParseNamesAreNames(Strip(f[10]));
    match ParseInt(Strip(f[7]))
    case None => BadReleaseYear(Strip(f[7]))
    case Some(releaseYear) =>
      var itemType := Strip(f[1]);
      var (duration, seasons) := DurationAndSeasons(itemType, Strip(f[9]));
      var (day, year) := DateAddedFields(Strip(f[6]));
      Accepted(ParsedRow(
        Strip(f[0]),
        ShowRecord(itemType, Strip(f[2]), day, year, releaseYear, Strip(f[8]), duration, seasons, Strip(f[11])),
        ParseNames(Strip(f[3])), ParseNames(Strip(f[4])), ParseNames(Strip(f[5])), ParseNames(Strip(f[10]))))
  }

  /** One iteration of the `for i, row in enumerate(reader)` loop, up to the
      point where the row's data are written: empty rows are skipped, the
      first row is skipped as a header when its first cell names `show_id`,
      rows of fewer than twelve cells are rejected and longer rows are cut to
      their first twelve. */
  function ProcessRow(i: nat, row: seq<string>): (r: RowOutcome)
    ensures r == SkippedEmpty <==> row == []
    ensures r == SkippedHeader <==> row != [] && i == 0 && IsHeaderCell(row[0])
    ensures r.TooFewColumns? <==> row != [] && !(i == 0 && IsHeaderCell(row[0])) && |row| < ExpectedColumns
    ensures r.TooFewColumns? ==> r.count == |row|
    ensures r.Accepted? ==> |row| >= ExpectedColumns && WellFormed(r.parsed)
  {
    if row == [] then SkippedEmpty
    else if i == 0 && IsHeaderCell(row[0]) then SkippedHeader
    else if |row| < ExpectedColumns then TooFewColumns(|row|)
    else ParseFields(row[..ExpectedColumns])
  }

  /** Cells past the twelfth never matter: a longer row is treated exactly
      like its first twelve cells. */
  lemma TruncationIrrelevant(i: nat, row: seq<string>)
    requires |row| > ExpectedColumns
    ensures ProcessRow(i, row) == ProcessRow(i, row[..ExpectedColumns])
  {
    assert row[..ExpectedColumns][0] == row[0];
    assert row[..ExpectedColumns][..ExpectedColumns] == row[..ExpectedColumns];
  }

  /** A row whose release year is not an integer is skipped as a whole, and a
      row whose release year is one is accepted with that year. */
  lemma ReleaseYearDecides(i: nat, row: seq<string>)
    requires |row| >= ExpectedColumns && !(i == 0 && IsHeaderCell(row[0]))
    ensures ProcessRow(i, row).Accepted? <==> ParseInt(Strip(row[7])).Some?
    ensures ProcessRow(i, row).Accepted? ==> ProcessRow(i, row).parsed.record.releaseYear == ParseInt(Strip(row[7])).value
    ensures !ProcessRow(i, row).Accepted? ==> ProcessRow(i, row) == BadReleaseYear(Strip(row[7]))
  {
    assert row[..ExpectedColumns][7] == row[7];
  }

  /** Where the parts of an accepted row come from: the show id is the first
      cell, and the name lists are the director, cast, country and listed_in
      cells. */
  lemma AcceptedColumns(i: nat, row: seq<string>)
    requires ProcessRow(i, row).Accepted?
    ensures |row| >= ExpectedColumns
    ensures ProcessRow(i, row).parsed
         == ParsedRow(Strip(row[0]), ProcessRow(i, row).parsed.record, ParseNames(Strip(row[3])),
                      ParseNames(Strip(row[4])), ParseNames(Strip(row[5])), ParseNames(Strip(row[10])))
  {
    var f := row[..ExpectedColumns];
    assert f[0] == row[0] && f[3] == row[3] && f[4] == row[4] && f[5] == row[5] && f[10] == row[10];
  }

  /** Where the `shows` columns of an accepted row come from: type, title,
      rating and description are the stripped cells, the date columns come
      from the date_added cell, duration and seasons from the type and the
      duration-or-seasons cell, and the release year is the integer of its
      cell. */
  lemma AcceptedRecord(i: nat, row: seq<string>)
    requires ProcessRow(i, row).Accepted?
    ensures |row| >= ExpectedColumns
    ensures var rec := ProcessRow(i, row).parsed.record;
      && rec.itemType == Strip(row[1]) && rec.title == Strip(row[2])
      && rec.rating == Strip(row[8]) && rec.description == Strip(row[11])
      && (rec.dateAddedDay, rec.dateAddedYear) == DateAddedFields(Strip(row[6]))
      && (rec.duration, rec.seasons) == DurationAndSeasons(Strip(row[1]), Strip(row[9]))
      && Some(rec.releaseYear) == ParseInt(Strip(row[7]))
  {
    var f := row[..ExpectedColumns];
    assert f[1] == row[1] && f[2] == row[2] && f[6] == row[6] && f[7] == row[7];
    assert f[8] == row[8] && f[9] == row[9] && f[11] == row[11];
  }

  /** The header test applies to the first row only. */
  lemma HeaderOnlyFirst(i: nat, row: seq<string>)
    requires i > 0 && row != []
    ensures ProcessRow(i, row) != SkippedHeader
  {
  }
}
