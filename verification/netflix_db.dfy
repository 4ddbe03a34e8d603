/** The database writes of `etl_process`, step by step.  Each entity table is
    an object whose name-to-id map and AUTO_INCREMENT counter change in
    place; the `Database` object holds `shows`, the four entity tables and the
    four link tables.  Every method is proved to leave the state that the
    matching function of NetflixTables describes, so the lemmas proved there
    (keys and foreign keys kept, ids stable, idempotence, no repeated links)
    hold of these methods too. */
module NetflixDb {
  import opened Text
  import opened NetflixRows
  import NetflixTables

  /** A table `directors`, `cast_members`, `countries` or `genres`. */
  class EntityTable {
    var ids: map<string, int>
    var next: int

    function State(): NetflixTables.Registry
      reads this
    {
      NetflixTables.Registry(ids, next)
    }

    /** A freshly created, empty table whose first id will be 1. */
    constructor ()
      ensures State() == NetflixTables.EmptyRegistry
    {
      ids := map[];
      next := 1;
    }

    /** `get_or_create_id`: select the name's id, or insert the name and
        return the id AUTO_INCREMENT gave it. */
    method GetOrCreateId(name: string) returns (id: int)
      modifies this
      ensures (State(), id) == NetflixTables.GetOrCreateId(old(State()), name)
    {
      if name in ids {
        id := ids[name];
      } else {
        id := next;
        ids := ids[name := id];
        next := next + 1;
      }
    }
  }

  /** The loop over one name column of an accepted row: split on `,`, strip
      each piece, skip the empty ones, resolve each name to its id and insert
      the pair `(show_id, id)` with `INSERT IGNORE`.  An empty column is not
      split at all. */
  method LinkColumn(table: EntityTable, links: set<NetflixTables.Link>, showId: string, column: string)
      returns (result: set<NetflixTables.Link>)
    modifies table
    ensures (table.State(), result) == NetflixTables.LinkNames(old(table.State()), links, showId, ParseNames(column))
  {
    result := links;
    if column == "" {
      return;
    }
    var pieces := Split(column, ',');
    assert pieces[0..] == pieces;
    var i := 0;
    while i < |pieces|
      invariant 0 <= i <= |pieces|
      invariant NetflixTables.LinkNames(table.State(), result, showId, NamesOf(pieces[i..]))
             == NetflixTables.LinkNames(old(table.State()), links, showId, ParseNames(column))
    {
      var name := Strip(pieces[i]);
      NamesOfFrom(pieces, i);
      if name != "" {
        NetflixTables.LinkNamesCons(table.State(), result, showId, name, NamesOf(pieces[i + 1..]));
        var id := table.GetOrCreateId(name);
        result := result + {(showId, id)};
      } else {
        assert NamesOf(pieces[i..]) == NamesOf(pieces[i + 1..]);
      }
      i := i + 1;
    }
  }

  /** The nine tables of `netflix_db`. */
  class Database {
    var shows: map<string, ShowRecord>
    const directors: EntityTable
    const castMembers: EntityTable
    const countries: EntityTable
    const genres: EntityTable
    var showDirectors: set<NetflixTables.Link>
    var showCastMembers: set<NetflixTables.Link>
    var showCountries: set<NetflixTables.Link>
    var showGenres: set<NetflixTables.Link>

    /** The four entity tables are four different tables. */
    predicate Valid()
      reads this
    {
      && directors != castMembers && directors != countries && directors != genres
      && castMembers != countries && castMembers != genres
      && countries != genres
    }

    function Tables(): NetflixTables.Tables
      reads this, directors, castMembers, countries, genres
    {
      NetflixTables.Tables(shows, directors.State(), castMembers.State(), countries.State(), genres.State(),
                           showDirectors, showCastMembers, showCountries, showGenres)
    }

    /** A newly created, empty database. */
    constructor ()
      ensures Valid() && Tables() == NetflixTables.EmptyTables
    {
      shows := map[];
      directors := new EntityTable();
      castMembers := new EntityTable();
      countries := new EntityTable();
      genres := new EntityTable();
      showDirectors, showCastMembers, showCountries, showGenres := {}, {}, {}, {};
    }

    /** The `DELETE` statements at the start of `etl_process`. */
    method BeginImport()
      requires Valid()
      modifies this
      ensures Valid() && Tables() == NetflixTables.BeginImport(old(Tables()))
    {
      showDirectors := {};
      showCastMembers := {};
      showCountries := {};
      showGenres := {};
      shows := map[];
    }

    /** The writes for an accepted row: the `shows` upsert, then the
        directors, cast, countries and genres columns, each already stripped. */
    method ImportFields(showId: string, record: ShowRecord,
                        directorsColumn: string, castColumn: string, countriesColumn: string, genresColumn: string)
      requires Valid()
      modifies this, directors, castMembers, countries, genres
      ensures Valid()
      ensures shows == old(shows)[showId := record]
      ensures (directors.State(), showDirectors)
           == NetflixTables.LinkNames(old(directors.State()), old(showDirectors), showId, ParseNames(directorsColumn))
      ensures (castMembers.State(), showCastMembers)
           == NetflixTables.LinkNames(old(castMembers.State()), old(showCastMembers), showId, ParseNames(castColumn))
      ensures (countries.State(), showCountries)
           == NetflixTables.LinkNames(old(countries.State()), old(showCountries), showId, ParseNames(countriesColumn))
      ensures (genres.State(), showGenres)
           == NetflixTables.LinkNames(old(genres.State()), old(showGenres), showId, ParseNames(genresColumn))
    {
      shows := shows[showId := record];
      showDirectors := LinkColumn(directors, showDirectors, showId, directorsColumn);
      showCastMembers := LinkColumn(castMembers, showCastMembers, showId, castColumn);
      showCountries := LinkColumn(countries, showCountries, showId, countriesColumn);
      showGenres := LinkColumn(genres, showGenres, showId, genresColumn);
    }

    /** One iteration of the row loop; the outcome says why a row was
        skipped, which the source reports on the console. */
    method HandleRow(i: nat, row: seq<string>) returns (outcome: RowOutcome)
      requires Valid()
      modifies this, directors, castMembers, countries, genres
      ensures outcome == ProcessRow(i, row)
      ensures Valid() && Tables() == NetflixTables.ApplyRow(old(Tables()), i, row)
    {
      if row == [] {
        return SkippedEmpty;
      }
      if i == 0 && IsHeaderCell(row[0]) {
        return SkippedHeader;
      }
      if |row| < ExpectedColumns {
        return TooFewColumns(|row|);
      }
      ReleaseYearDecides(i, row);
      var year := ParseInt(Strip(row[7]));
      if year.None? {
        return BadReleaseYear(Strip(row[7]));
      }
      outcome := ProcessRow(i, row);
      AcceptedColumns(i, row);
      ghost var before := Tables();
      NetflixTables.ApplyRowAccepted(before, i, row);
      ImportFields(Strip(row[0]), outcome.parsed.record, Strip(row[3]), Strip(row[4]), Strip(row[5]), Strip(row[10]));
      NetflixTables.ImportRowFromParts(before, outcome.parsed, Tables());
    }

    /** `etl_process`: clear `shows` and the link tables, then handle every
        row of the file in order. */
    method EtlProcess(rows: seq<seq<string>>)
      requires Valid()
      modifies this, directors, castMembers, countries, genres
      ensures Valid() && Tables() == NetflixTables.EtlProcess(old(Tables()), rows)
    {
      BeginImport();
      ghost var start := Tables();
      var i := 0;
      while i < |rows|
        invariant 0 <= i <= |rows| && Valid()
        invariant Tables() == NetflixTables.ApplyRows(start, rows[..i])
      {
        var _ := HandleRow(i, rows[i]);
        assert rows[..i + 1][..i] == rows[..i];
        i := i + 1;
      }
      assert rows[..i] == rows;
    }
  }
}
