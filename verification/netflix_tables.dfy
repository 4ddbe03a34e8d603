/** The effect of `etl_process` on the tables of `netflix_db`, as values.
    An entity table with an AUTO_INCREMENT id and a UNIQUE name is a map from
    name to id plus the next id; a link table whose primary key is
    `(show_id, entity_id)`, written with `INSERT IGNORE`, is a set of pairs;
    the `shows` table, written with `INSERT ... ON DUPLICATE KEY UPDATE`, is a
    map from `show_id` to the other columns.  The classes in NetflixDb update
    the same state step by step and are proved to agree with these functions. */
module NetflixTables {
  import opened Wrappers
  import opened NetflixRows

  /** One entity table: `directors`, `cast_members`, `countries` or `genres`. */
  datatype Registry = Registry(ids: map<string, int>, next: int)

  const EmptyRegistry: Registry := Registry(map[], 1)

  /** The id column is a primary key filled by AUTO_INCREMENT: every id is
      positive and below the counter, and no two names share an id. */
  predicate ValidRegistry(r: Registry) {
    && r.next >= 1
    && (forall n :: n in r.ids ==> 1 <= r.ids[n] < r.next)
    && (forall n, m :: n in r.ids && m in r.ids && n != m ==> r.ids[n] != r.ids[m])
  }

  /** `r2` still holds every name of `r1`, with the same id. */
  predicate Extends(r1: Registry, r2: Registry) {
    && r1.next <= r2.next
    && forall n :: n in r1.ids ==> n in r2.ids && r2.ids[n] == r1.ids[n]
  }

  /** `get_or_create_id`: the id of `name` when the table has it (and the
      table unchanged), otherwise a fresh id for a newly inserted name. */
  function GetOrCreateId(r: Registry, name: string): (res: (Registry, int))
    ensures name in res.0.ids && res.0.ids[name] == res.1
    ensures res.0.ids.Keys == r.ids.Keys + {name}
    ensures Extends(r, res.0)
    ensures name in r.ids ==> res.0 == r
    ensures ValidRegistry(r) && name !in r.ids ==> forall n :: n in r.ids ==> r.ids[n] != res.1
    ensures ValidRegistry(r) ==> ValidRegistry(res.0)
  {
    if name in r.ids then (r, r.ids[name])
    else (Registry(r.ids[name := r.next], r.next + 1), r.next)
  }

  /** Asking twice for the same name gives the same id and changes nothing
      the second time. */
  lemma GetOrCreateIdStable(r: Registry, name: string, later: Registry)
    requires Extends(GetOrCreateId(r, name).0, later)
    ensures GetOrCreateId(later, name) == (later, GetOrCreateId(r, name).1)
  {
  }

  /** A row of a link table: `(show_id, entity_id)`. */
  type Link = (string, int)

  /** The inner `for name in column.split(','):` loop of one name list: each
      name is resolved with `get_or_create_id` and the pair is inserted with
      `INSERT IGNORE`.  Afterwards the table holds every name, old names keep
      their ids, and the link set is the old one plus one pair per distinct
      name. */
  function LinkNames(r: Registry, links: set<Link>, showId: string, names: seq<string>): (res: (Registry, set<Link>))
    ensures Extends(r, res.0)
    ensures res.0.ids.Keys == r.ids.Keys + (set n | n in names)
    ensures ValidRegistry(r) ==> ValidRegistry(res.0)
    ensures res.1 == links + (set n | n in names :: (showId, res.0.ids[n]))
    decreases |names|
  {
    if names == [] then (r, links)
    else
      var (r1, id) := GetOrCreateId(r, names[0]);
      var res := LinkNames(r1, links + {(showId, id)}, showId, names[1..]);
      LinkSetsCons(names, showId, res.0.ids);
      res
  }

  /** The names of a non-empty list, and their links, are those of its head
      and those of its tail. */
  lemma LinkSetsCons(names: seq<string>, showId: string, ids: map<string, int>)
    requires names != [] && forall n :: n in names ==> n in ids
    ensures (set n | n in names) == {names[0]} + (set n | n in names[1..])
    ensures (set n | n in names :: (showId, ids[n]))
         == {(showId, ids[names[0]])} + (set n | n in names[1..] :: (showId, ids[n]))
  {
    assert names == [names[0]] + names[1..];
  }

  /** Linking a list that starts with `name` resolves `name` first. */
  lemma LinkNamesCons(r: Registry, links: set<Link>, showId: string, name: string, rest: seq<string>)
    ensures LinkNames(r, links, showId, [name] + rest)
         == LinkNames(GetOrCreateId(r, name).0, links + {(showId, GetOrCreateId(r, name).1)}, showId, rest)
  {
    assert ([name] + rest)[0] == name && ([name] + rest)[1..] == rest;
  }

  /** Linking names that are all present and already linked changes nothing. */
  lemma {:induction false} LinkNamesNoop(r: Registry, links: set<Link>, showId: string, names: seq<string>)
    requires forall n :: n in names ==> n in r.ids && (showId, r.ids[n]) in links
    ensures LinkNames(r, links, showId, names) == (r, links)
    decreases |names|
  {
    if names != [] {
      assert names[0] in names;
      assert forall n :: n in names[1..] ==> n in names;
      assert GetOrCreateId(r, names[0]) == (r, r.ids[names[0]]);
      assert links + {(showId, r.ids[names[0]])} == links;
      LinkNamesNoop(r, links, showId, names[1..]);
    }
  }

  /** Linking `a + b` is linking `a` and then `b`. */
  lemma {:induction false} LinkNamesAppend(r: Registry, links: set<Link>, showId: string, a: seq<string>, b: seq<string>)
    ensures LinkNames(r, links, showId, a + b)
         == LinkNames(LinkNames(r, links, showId, a).0, LinkNames(r, links, showId, a).1, showId, b)
    decreases |a|
  {
    if a != [] {
      var (r1, id) := GetOrCreateId(r, a[0]);
      assert (a + b)[0] == a[0];
      assert (a + b)[1..] == a[1..] + b;
      LinkNamesAppend(r1, links + {(showId, id)}, showId, a[1..], b);
    } else {
      assert a + b == b;
    }
  }

  /** A name repeated within one list produces no second link and no second
      entity row. */
  lemma LinkNamesRepeated(r: Registry, links: set<Link>, showId: string, names: seq<string>, name: string)
    requires name in names
    ensures LinkNames(r, links, showId, names + [name]) == LinkNames(r, links, showId, names)
  {
    LinkNamesAppend(r, links, showId, names, [name]);
    var res := LinkNames(r, links, showId, names);
    LinkNamesNoop(res.0, res.1, showId, [name]);
  }

  /** The state of all nine tables. */
  datatype Tables = Tables(
    shows: map<string, ShowRecord>,
    directors: Registry,
    castMembers: Registry,
    countries: Registry,
    genres: Registry,
    showDirectors: set<Link>,
    showCastMembers: set<Link>,
    showCountries: set<Link>,
    showGenres: set<Link>)

  const EmptyTables: Tables :=
    Tables(map[], EmptyRegistry, EmptyRegistry, EmptyRegistry, EmptyRegistry, {}, {}, {}, {})

  /** The two FOREIGN KEY constraints of a link table. */
  predicate LinksValid(links: set<Link>, shows: map<string, ShowRecord>, r: Registry) {
    forall l :: l in links ==> l.0 in shows && exists n :: n in r.ids && r.ids[n] == l.1
  }

  /** The constraints of the schema: keys of the entity tables, and foreign
      keys of the link tables. */
  predicate ValidTables(t: Tables) {
    && ValidRegistry(t.directors) && ValidRegistry(t.castMembers)
    && ValidRegistry(t.countries) && ValidRegistry(t.genres)
    && LinksValid(t.showDirectors, t.shows, t.directors)
    && LinksValid(t.showCastMembers, t.shows, t.castMembers)
    && LinksValid(t.showCountries, t.shows, t.countries)
    && LinksValid(t.showGenres, t.shows, t.genres)
  }

  /** Every entity table of `t2` extends the one of `t1`: no name ever
      changes its id. */
  predicate AllExtend(t1: Tables, t2: Tables) {
    && Extends(t1.directors, t2.directors) && Extends(t1.castMembers, t2.castMembers)
    && Extends(t1.countries, t2.countries) && Extends(t1.genres, t2.genres)
  }

  /** The writes of one accepted row: the `shows` upsert, then the four name
      lists in the order directors, cast, countries, genres. */
  function ImportRow(t: Tables, p: ParsedRow): Tables
  {
    var d := LinkNames(t.directors, t.showDirectors, p.showId, p.directors);
    var c := LinkNames(t.castMembers, t.showCastMembers, p.showId, p.castMembers);
    var co := LinkNames(t.countries, t.showCountries, p.showId, p.countries);
    var g := LinkNames(t.genres, t.showGenres, p.showId, p.genres);
    Tables(t.shows[p.showId := p.record], d.0, c.0, co.0, g.0, d.1, c.1, co.1, g.1)
  }

  /** The effect of one accepted row: the show is inserted or its record
      replaced, no other show changes, no name changes its id, and every name
      of the row is in its table and linked to the show. */
  lemma ImportRowEffect(t: Tables, p: ParsedRow)
    ensures ImportRow(t, p).shows.Keys == t.shows.Keys + {p.showId}
    ensures ImportRow(t, p).shows[p.showId] == p.record
    ensures forall k :: k in t.shows && k != p.showId ==> ImportRow(t, p).shows[k] == t.shows[k]
    ensures AllExtend(t, ImportRow(t, p))
    ensures forall n :: n in p.directors ==>
              n in ImportRow(t, p).directors.ids && (p.showId, ImportRow(t, p).directors.ids[n]) in ImportRow(t, p).showDirectors
    ensures forall n :: n in p.castMembers ==>
              n in ImportRow(t, p).castMembers.ids && (p.showId, ImportRow(t, p).castMembers.ids[n]) in ImportRow(t, p).showCastMembers
    ensures forall n :: n in p.countries ==>
              n in ImportRow(t, p).countries.ids && (p.showId, ImportRow(t, p).countries.ids[n]) in ImportRow(t, p).showCountries
    ensures forall n :: n in p.genres ==>
              n in ImportRow(t, p).genres.ids && (p.showId, ImportRow(t, p).genres.ids[n]) in ImportRow(t, p).showGenres
  {
  }

  /** A state whose parts are the upserted `shows` and the four linked name
      lists is the state after importing the row. */
  lemma ImportRowFromParts(t: Tables, p: ParsedRow, r: Tables)
    requires r.shows == t.shows[p.showId := p.record]
    requires (r.directors, r.showDirectors) == LinkNames(t.directors, t.showDirectors, p.showId, p.directors)
    requires (r.castMembers, r.showCastMembers) == LinkNames(t.castMembers, t.showCastMembers, p.showId, p.castMembers)
    requires (r.countries, r.showCountries) == LinkNames(t.countries, t.showCountries, p.showId, p.countries)
    requires (r.genres, r.showGenres) == LinkNames(t.genres, t.showGenres, p.showId, p.genres)
    ensures r == ImportRow(t, p)
  {
  }

  /** Links are only ever added, and only for the imported show: the links of
      every other show are unchanged. */
  lemma ImportRowOtherShows(t: Tables, p: ParsedRow, other: string, id: int)
    requires other != p.showId
    ensures (other, id) in ImportRow(t, p).showDirectors <==> (other, id) in t.showDirectors
    ensures (other, id) in ImportRow(t, p).showCastMembers <==> (other, id) in t.showCastMembers
    ensures (other, id) in ImportRow(t, p).showCountries <==> (other, id) in t.showCountries
    ensures (other, id) in ImportRow(t, p).showGenres <==> (other, id) in t.showGenres
  {
  }

  lemma LinkNamesKeepsLinksValid(t: Tables, r: Registry, links: set<Link>, showId: string, names: seq<string>,
                                 shows: map<string, ShowRecord>)
    requires LinksValid(links, shows, r) && showId in shows
    ensures LinksValid(LinkNames(r, links, showId, names).1, shows, LinkNames(r, links, showId, names).0)
  {
    var res := LinkNames(r, links, showId, names);
    forall l | l in res.1 ensures l.0 in shows && exists n :: n in res.0.ids && res.0.ids[n] == l.1 {
      if l in links {
        var n :| n in r.ids && r.ids[n] == l.1;
        assert n in res.0.ids && res.0.ids[n] == l.1;
      } else {
        var n :| n in names && l == (showId, res.0.ids[n]);
        assert n in res.0.ids;
      }
    }
  }

  lemma LinksValidGrowShows(links: set<Link>, shows: map<string, ShowRecord>, shows': map<string, ShowRecord>, r: Registry)
    requires LinksValid(links, shows, r) && shows.Keys <= shows'.Keys
    ensures LinksValid(links, shows', r)
  {
  }

  /** Importing a row keeps every key and foreign-key constraint. */
  lemma ImportRowValid(t: Tables, p: ParsedRow)
    requires ValidTables(t)
    ensures ValidTables(ImportRow(t, p))
  {
    var shows := t.shows[p.showId := p.record];
    LinksValidGrowShows(t.showDirectors, t.shows, shows, t.directors);
    LinksValidGrowShows(t.showCastMembers, t.shows, shows, t.castMembers);
    LinksValidGrowShows(t.showCountries, t.shows, shows, t.countries);
    LinksValidGrowShows(t.showGenres, t.shows, shows, t.genres);
    LinkNamesKeepsLinksValid(t, t.directors, t.showDirectors, p.showId, p.directors, shows);
    LinkNamesKeepsLinksValid(t, t.castMembers, t.showCastMembers, p.showId, p.castMembers, shows);
    LinkNamesKeepsLinksValid(t, t.countries, t.showCountries, p.showId, p.countries, shows);
    LinkNamesKeepsLinksValid(t, t.genres, t.showGenres, p.showId, p.genres, shows);
  }

  /** One iteration of the row loop: a skipped or rejected row leaves every
      table as it was. */
  function ApplyRow(t: Tables, i: nat, row: seq<string>): (r: Tables)
    ensures !ProcessRow(i, row).Accepted? ==> r == t
  {
    match ProcessRow(i, row)
    case Accepted(p) => ImportRow(t, p)
    case _ => t
  }

  lemma ApplyRowAccepted(t: Tables, i: nat, row: seq<string>)
    requires ProcessRow(i, row).Accepted?
    ensures ApplyRow(t, i, row) == ImportRow(t, ProcessRow(i, row).parsed)
  {
  }

  /** Importing the same row a second time changes nothing: names keep their
      ids, links are not duplicated, and the upsert writes the same record. */
  lemma ImportRowIdempotent(t: Tables, p: ParsedRow)
    ensures ImportRow(ImportRow(t, p), p) == ImportRow(t, p)
  {
    var r := ImportRow(t, p);
    ImportRowEffect(t, p);
    LinkNamesNoop(r.directors, r.showDirectors, p.showId, p.directors);
    LinkNamesNoop(r.castMembers, r.showCastMembers, p.showId, p.castMembers);
    LinkNamesNoop(r.countries, r.showCountries, p.showId, p.countries);
    LinkNamesNoop(r.genres, r.showGenres, p.showId, p.genres);
    assert r.shows[p.showId := p.record] == r.shows;
  }

  /** Handling the same row twice is the same as handling it once. */
  lemma ApplyRowIdempotent(t: Tables, i: nat, row: seq<string>)
    ensures ApplyRow(ApplyRow(t, i, row), i, row) == ApplyRow(t, i, row)
  {
    if ProcessRow(i, row).Accepted? {
      var p := ProcessRow(i, row).parsed;
      ApplyRowAccepted(t, i, row);
      ApplyRowAccepted(ImportRow(t, p), i, row);
      ImportRowIdempotent(t, p);
    }
  }

  /** The loop `for i, row in enumerate(reader)` over all rows, row `i` being
      the `i`-th row of the file. */
  function ApplyRows(t: Tables, rows: seq<seq<string>>): Tables
  {
    if rows == [] then t
    else ApplyRow(ApplyRows(t, rows[..|rows| - 1]), |rows| - 1, rows[|rows| - 1])
  }

  /** The loop keeps every schema constraint. */
  lemma {:induction false} ApplyRowsValid(t: Tables, rows: seq<seq<string>>)
    requires ValidTables(t)
    ensures ValidTables(ApplyRows(t, rows))
  {
    if rows != [] {
      var prev := ApplyRows(t, rows[..|rows| - 1]);
      ApplyRowsValid(t, rows[..|rows| - 1]);
      if ProcessRow(|rows| - 1, rows[|rows| - 1]).Accepted? {
        ImportRowValid(prev, ProcessRow(|rows| - 1, rows[|rows| - 1]).parsed);
      }
    }
  }

  /** Over the whole loop, ids are stable: a name keeps the id it had. */
  lemma {:induction false} ApplyRowsExtends(t: Tables, rows: seq<seq<string>>)
    ensures AllExtend(t, ApplyRows(t, rows))
  {
    if rows != [] {
      ApplyRowsExtends(t, rows[..|rows| - 1]);
      var row := rows[|rows| - 1];
      if ProcessRow(|rows| - 1, row).Accepted? {
        ImportRowEffect(ApplyRows(t, rows[..|rows| - 1]), ProcessRow(|rows| - 1, row).parsed);
      }
    }
  }

  /** The deletes at the start of `etl_process`: `shows` and the link tables
      are emptied, the entity tables keep their names and ids. */
  function BeginImport(t: Tables): (r: Tables)
    ensures ValidTables(t) ==> ValidTables(r)
    ensures AllExtend(t, r) && AllExtend(r, t)
  {
    t.(shows := map[], showDirectors := {}, showCastMembers := {}, showCountries := {}, showGenres := {})
  }

  /** `etl_process` on a file of rows. */
  function EtlProcess(t: Tables, rows: seq<seq<string>>): Tables
  {
    ApplyRows(BeginImport(t), rows)
  }

  /** Row `i` is accepted and carries the show id `id`. */
  predicate RowImports(i: nat, row: seq<string>, id: string) {
    ProcessRow(i, row).Accepted? && ProcessRow(i, row).parsed.showId == id
  }

  lemma ApplyRowShows(t: Tables, i: nat, row: seq<string>, id: string)
    ensures id in ApplyRow(t, i, row).shows <==> id in t.shows || RowImports(i, row, id)
  {
  }

  /** Rows only ever add or replace shows. */
  lemma {:induction false} ApplyRowsKeepsShows(t: Tables, rows: seq<seq<string>>)
    ensures t.shows.Keys <= ApplyRows(t, rows).shows.Keys
  {
    if rows != [] {
      var last := |rows| - 1;
      ApplyRowsKeepsShows(t, rows[..last]);
      var prev := ApplyRows(t, rows[..last]);
      forall id | id in prev.shows ensures id in ApplyRows(t, rows).shows {
        ApplyRowShows(prev, last, rows[last], id);
      }
    }
  }

  /** Every accepted row's show is present after the loop. */
  lemma ApplyRowsImported(t: Tables, rows: seq<seq<string>>, i: nat, id: string)
    requires i < |rows| && RowImports(i, rows[i], id)
    ensures id in ApplyRows(t, rows).shows
  {
    ApplyRowsLast(t, rows, i, id);
    ApplyRowsPrefixKeepsShows(t, rows, i + 1);
  }

  /** The loop over one more row: a show present before row `k`, or imported
      by it, is present after it. */
  lemma ApplyRowsLast(t: Tables, rows: seq<seq<string>>, k: nat, id: string)
    requires k < |rows|
    requires id in ApplyRows(t, rows[..k]).shows || RowImports(k, rows[k], id)
    ensures id in ApplyRows(t, rows[..k + 1]).shows
  {
    assert rows[..k + 1][..k] == rows[..k];
    ApplyRowShows(ApplyRows(t, rows[..k]), k, rows[k], id);
  }

  /** The shows present after a prefix of the rows are still present after
      all of them. */
  lemma {:induction false} ApplyRowsPrefixKeepsShows(t: Tables, rows: seq<seq<string>>, k: nat)
    requires k <= |rows|
    ensures ApplyRows(t, rows[..k]).shows.Keys <= ApplyRows(t, rows).shows.Keys
    decreases |rows| - k
  {
    if k == |rows| {
      assert rows[..k] == rows;
    } else {
      ApplyRowsPrefixKeepsShows(t, rows, k + 1);
      var prev := ApplyRows(t, rows[..k]);
      assert rows[..k + 1][..k] == rows[..k];
      assert ApplyRows(t, rows[..k + 1]) == ApplyRow(prev, k, rows[k]);
      forall id | id in prev.shows ensures id in ApplyRow(prev, k, rows[k]).shows {
        ApplyRowShows(prev, k, rows[k], id);
      }
    }
  }

  /** A show present after the loop was present before it or came from a row. */
  lemma {:induction false} ApplyRowsOnlyImported(t: Tables, rows: seq<seq<string>>, id: string)
    requires id in ApplyRows(t, rows).shows && id !in t.shows
    ensures exists i :: 0 <= i < |rows| && RowImports(i, rows[i], id)
  {
    if rows != [] {
      var last := |rows| - 1;
      var prev := ApplyRows(t, rows[..last]);
      ApplyRowShows(prev, last, rows[last], id);
      if RowImports(last, rows[last], id) {
        assert 0 <= last < |rows| && RowImports(last, rows[last], id);
      } else {
        ApplyRowsOnlyImported(t, rows[..last], id);
        var i :| 0 <= i < last && RowImports(i, rows[..last][i], id);
        assert rows[..last][i] == rows[i];
        assert 0 <= i < |rows| && RowImports(i, rows[i], id);
      }
    }
  }

  /** After a run, a show is present exactly when some row of the file
      carried its id: shows of earlier runs do not survive. */
  lemma EtlShows(t: Tables, rows: seq<seq<string>>, id: string)
    ensures id in EtlProcess(t, rows).shows <==> exists i :: 0 <= i < |rows| && RowImports(i, rows[i], id)
  {
    if id in EtlProcess(t, rows).shows {
      ApplyRowsOnlyImported(BeginImport(t), rows, id);
    }
    if exists i :: 0 <= i < |rows| && RowImports(i, rows[i], id) {
      var i :| 0 <= i < |rows| && RowImports(i, rows[i], id);
      ApplyRowsImported(BeginImport(t), rows, i, id);
    }
  }
}
