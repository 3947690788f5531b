/**
 * The two tables of the catalog as a value, and what each statement of the
 * store does to them: the rowid scan, the WHERE filter, the seeding inserts,
 * the AUTOINCREMENT insert, the explicit-id insert and INSERT OR IGNORE of
 * the import, and the export snapshot.
 */
module Catalog {
  import opened Wrappers
  import opened Text
  import opened Sorting
  import opened Records

  /** SQLite row ids are signed 64-bit integers. */
  const MinRowId: int := -0x8000_0000_0000_0000
  const MaxRowId: int := 0x7FFF_FFFF_FFFF_FFFF

  predicate IsRowId(id: int)
  {
    MinRowId <= id <= MaxRowId
  }

  /** The failures a store operation reports. */
  datatype Error =
    | NotInitialized        // no database handle yet
    | UniqueConstraint      // a map name that is already stored
    | PrimaryKeyConstraint  // an imported nade id that is already stored
    | DatatypeMismatch      // an imported nade id that is not a 64-bit integer
    | DatabaseFull          // AUTOINCREMENT has handed out the largest row id

  /**
   * The database file's content: the `maps` rows in row-id order, the `nades`
   * rows by id, and the AUTOINCREMENT counter of `nades` (its `sqlite_sequence`
   * entry, 0 while absent).
   */
  datatype Tables = Tables(maps: seq<string>, nades: map<int, NadeRecord>, nadeSeq: int)

  /** The file a first start finds: no rows, no counter. */
  const EmptyTables := Tables([], map[], 0)

  /** Each row carries its own key as its id. */
  predicate KeyedById(nades: map<int, NadeRecord>)
  {
    forall id :: id in nades ==> nades[id].id == id
  }

  /**
   * What the schema and the engine keep true: map names are UNIQUE, row ids
   * are 64-bit, and the AUTOINCREMENT counter is at least every id present.
   */
  predicate WellFormed(t: Tables)
  {
    && Distinct(t.maps)
    && 0 <= t.nadeSeq <= MaxRowId
    && KeyedById(t.nades)
    && forall id :: id in t.nades ==> MinRowId <= id <= t.nadeSeq
  }

  /** `x` is the row the table stores under `x`'s own id. */
  predicate Stored(nades: map<int, NadeRecord>, x: NadeRecord)
  {
    x.id in nades && nades[x.id] == x
  }

  /**
   * `SELECT * FROM nades`: a full scan of the rowid table, in ascending id
   * order. The query has no ORDER BY, so SQL itself promises no order; the
   * ascending rowid order is what SQLite's full scan of a rowid table
   * returns, and the export round trip relies on it.
   */
  function Rows(nades: map<int, NadeRecord>): (r: seq<NadeRecord>)
    ensures |r| == |nades|
  {
    var ids := AscendingIds(nades.Keys);
    seq(|ids|, i requires 0 <= i < |ids| => nades[ids[i]])
  }

  /**
   * In a table keyed by id, the scan lists exactly the stored rows, each
   * once, in ascending id order.
   */
  lemma {:induction false} RowsAreTheTable(nades: map<int, NadeRecord>)
    requires KeyedById(nades)
    ensures forall x :: x in Rows(nades) <==> Stored(nades, x)
    ensures forall i, j :: 0 <= i < j < |Rows(nades)| ==> Rows(nades)[i].id < Rows(nades)[j].id
    ensures Distinct(Rows(nades))
  {
    var ids := AscendingIds(nades.Keys);
    var r := Rows(nades);
    assert forall i :: 0 <= i < |r| ==> r[i] == nades[ids[i]] && r[i].id == ids[i];
    forall x ensures x in r <==> Stored(nades, x) {
      if x in r {
        var i :| 0 <= i < |r| && r[i] == x;
      }
      if Stored(nades, x) {
        var i :| 0 <= i < |ids| && ids[i] == x.id;
        assert r[i] == x;
      }
    }
  }

  /** The rows a WHERE clause keeps, in scan order. */
  function Select(clauses: seq<Clause>, rows: seq<NadeRecord>): (r: seq<NadeRecord>)
    ensures forall x :: x in r <==> x in rows && HoldsAll(clauses, x)
    ensures |r| <= |rows|
  {
    if rows == [] then []
    else
      var rest := Select(clauses, rows[1..]);
      assert rows[0] in rows;
      assert forall x :: x in rows[1..] ==> x in rows;
      (if HoldsAll(clauses, rows[0]) then [rows[0]] else []) + rest
  }

  /** The rows the filters call for, in scan order. */
  function Matching(f: NadeFilters, rows: seq<NadeRecord>): (r: seq<NadeRecord>)
    ensures forall x :: x in r <==> x in rows && Matches(f, x)
    ensures Distinct(rows) ==> Distinct(r)
  {
    if rows == [] then []
    else
      var rest := Matching(f, rows[1..]);
      assert rows[0] in rows;
      assert forall x :: x in rows[1..] ==> x in rows;
      (if Matches(f, rows[0]) then [rows[0]] else []) + rest
  }

  /** A WHERE clause that means the filters selects exactly the matching rows. */
  lemma {:induction false} SelectIsMatching(clauses: seq<Clause>, f: NadeFilters, rows: seq<NadeRecord>)
    requires forall r :: HoldsAll(clauses, r) <==> Matches(f, r)
    ensures Select(clauses, rows) == Matching(f, rows)
  {
    if rows != [] {
      SelectIsMatching(clauses, f, rows[1..]);
    }
  }

  /** The eight maps a store starts with. */
  const DefaultMaps: seq<string> :=
    ["Mirage", "Inferno", "Dust2", "Ancient", "Nuke", "Anubis", "Vertigo", "Overpass"]

  /** The three example nades a store starts with. */
  const DemoNades: seq<NadeInput> := [
    NadeInput("Window Smoke from Top Mid", "Mirage", "T", "Top Mid", "Window", "smoke",
      "Line up with antenna, jump-throw.", "mid,window,execute",
      None, Some("https://www.youtube.com/watch?v=example"), None),
    NadeInput("CT Smoke from Banana", "Inferno", "T", "Banana", "CT", "smoke",
      "Aim at roof edge, normal throw.", "b,ct,smoke",
      None, Some("https://www.youtube.com/watch?v=example2"), None),
    NadeInput("A Site Pop Flash", "Dust2", "T", "Long Corner", "A Site", "flash",
      "Bounce off wall for quick pop.", "a,flash,entry",
      None, Some("https://www.twitch.tv/example"), None)
  ]

  /** Seeding the maps table: the default maps, only into an empty table. */
  function SeedMaps(t: Tables): Tables
  {
    if |t.maps| > 0 then t else t.(maps := DefaultMaps)
  }

  /**
   * An INSERT that leaves the id to AUTOINCREMENT: one more than the largest
   * id the table has ever held, or a full database once that is the largest
   * row id.
   */
  function InsertNext(t: Tables, x: NadeInput, createdAt: Timestamp, updatedAt: Timestamp): Result<Tables, Error>
  {
    if t.nadeSeq >= MaxRowId then Err(DatabaseFull)
    else
      var id := t.nadeSeq + 1;
      Ok(t.(nades := t.nades[id := NadeRecord(id, x, createdAt, updatedAt)], nadeSeq := id))
  }

  /** The AUTOINCREMENT inserts of `xs`, in order, inside one transaction. */
  function InsertAll(t: Tables, xs: seq<NadeInput>, createdAt: Timestamp, updatedAt: Timestamp): Result<Tables, Error>
    decreases |xs|
  {
    if xs == [] then Ok(t)
    else
      match InsertNext(t, xs[0], createdAt, updatedAt)
      case Err(e) => Err(e)
      case Ok(t') => InsertAll(t', xs[1..], createdAt, updatedAt)
  }

  /** Seeding the nades table: the demo nades, only into an empty table, all stamped `now`. */
  function SeedNades(t: Tables, now: Timestamp): Result<Tables, Error>
  {
    if |t.nades| > 0 then Ok(t) else InsertAll(t, DemoNades, now, now)
  }

  /**
   * An AUTOINCREMENT insert into a well-formed table gets an id above every
   * id present, stores exactly the new row and keeps the table well-formed;
   * it fails only once the counter has reached the largest row id.
   */
  lemma {:induction false} InsertNextFresh(t: Tables, x: NadeInput, createdAt: Timestamp, updatedAt: Timestamp)
    requires WellFormed(t)
    ensures InsertNext(t, x, createdAt, updatedAt).Ok? <==> t.nadeSeq < MaxRowId
    ensures InsertNext(t, x, createdAt, updatedAt).Ok? ==>
      var t' := InsertNext(t, x, createdAt, updatedAt).value;
      var id := t'.nadeSeq;
      && WellFormed(t')
      && id !in t.nades
      && (forall k :: k in t.nades ==> k < id)
      && t'.nades == t.nades[id := NadeRecord(id, x, createdAt, updatedAt)]
      && t'.maps == t.maps
  {
  }

  /**
   * The AUTOINCREMENT inserts of `xs` into a well-formed table: they all
   * succeed exactly when the counter has room for `|xs|` more ids, and then
   * the i-th input gets id `nadeSeq + 1 + i` with the given timestamps while
   * every earlier row stays as it was.
   */
  lemma {:induction false} InsertAllShape(t: Tables, xs: seq<NadeInput>, createdAt: Timestamp, updatedAt: Timestamp)
    requires WellFormed(t)
    ensures InsertAll(t, xs, createdAt, updatedAt).Ok? <==> t.nadeSeq + |xs| <= MaxRowId
    ensures InsertAll(t, xs, createdAt, updatedAt).Ok? ==>
      var t' := InsertAll(t, xs, createdAt, updatedAt).value;
      && WellFormed(t')
      && t'.maps == t.maps
      && t'.nadeSeq == t.nadeSeq + |xs|
      && (forall k :: k in t'.nades <==> k in t.nades || t.nadeSeq < k <= t.nadeSeq + |xs|)
      && (forall k :: k in t.nades ==> t'.nades[k] == t.nades[k])
      && (forall i :: 0 <= i < |xs| ==>
            t'.nades[t.nadeSeq + 1 + i] == NadeRecord(t.nadeSeq + 1 + i, xs[i], createdAt, updatedAt))
    decreases |xs|
  {
    if xs != [] && t.nadeSeq < MaxRowId {
      InsertNextFresh(t, xs[0], createdAt, updatedAt);
      var t1 := InsertNext(t, xs[0], createdAt, updatedAt).value;
      InsertAllShape(t1, xs[1..], createdAt, updatedAt);
      if InsertAll(t, xs, createdAt, updatedAt).Ok? {
        var t' := InsertAll(t, xs, createdAt, updatedAt).value;
        forall i | 0 <= i < |xs|
          ensures t'.nades[t.nadeSeq + 1 + i] == NadeRecord(t.nadeSeq + 1 + i, xs[i], createdAt, updatedAt)
        {
          if i > 0 {
            assert xs[1..][i - 1] == xs[i];
          }
        }
      }
    }
  }

  /**
   * Seeding a table that already has rows leaves it alone; seeding an empty
   * one succeeds exactly when the counter has room for three more ids, and
   * then stores rows under exactly the next three ids and advances the
   * counter past them.
   */
  lemma {:induction false} SeedNadesResult(t: Tables, now: Timestamp)
    requires WellFormed(t)
    ensures |t.nades| > 0 ==> SeedNades(t, now) == Ok(t)
    ensures |t.nades| == 0 ==> (SeedNades(t, now).Ok? <==> t.nadeSeq + 3 <= MaxRowId)
    ensures |t.nades| == 0 && SeedNades(t, now).Ok? ==>
      var t' := SeedNades(t, now).value;
      && WellFormed(t')
      && t'.maps == t.maps
      && t'.nadeSeq == t.nadeSeq + 3
      && forall k :: k in t'.nades <==> t.nadeSeq < k <= t.nadeSeq + 3
  {
    if |t.nades| == 0 {
      assert |DemoNades| == 3;
      InsertAllShape(t, DemoNades, now, now);
    }
  }

  /**
   * The seeded rows are the three demo nades, in order, and all of them
   * carry the one timestamp `now` as both `createdAt` and `updatedAt`.
   */
  lemma {:induction false} SeededRows(t: Tables, now: Timestamp)
    requires WellFormed(t)
    requires |t.nades| == 0 && SeedNades(t, now).Ok?
    ensures var t' := SeedNades(t, now).value;
      && (forall k :: k in t'.nades ==> t'.nades[k].createdAt == now && t'.nades[k].updatedAt == now)
      && (forall i :: 0 <= i < 3 ==> t.nadeSeq + 1 + i in t'.nades && t'.nades[t.nadeSeq + 1 + i].fields == DemoNades[i])
  {
    InsertAllShape(t, DemoNades, now, now);
    var t' := SeedNades(t, now).value;
    var s := t.nadeSeq;
    forall k | k in t'.nades ensures t'.nades[k].createdAt == now && t'.nades[k].updatedAt == now {
      assert t'.nades[s + 1 + (k - s - 1)].createdAt == now;
    }
  }

  /**
   * Seeding is idempotent: on a later start over the same file, once both
   * tables have been seeded, seeding again changes nothing.
   */
  lemma {:induction false} SeedIdempotent(t: Tables, now: Timestamp, later: Timestamp)
    requires WellFormed(t)
    requires SeedNades(SeedMaps(t), now).Ok?
    ensures var t' := SeedNades(SeedMaps(t), now).value;
      SeedMaps(t') == t' && SeedNades(t', later) == Ok(t')
  {
    var t1 := SeedMaps(t);
    assert WellFormed(t1) by {
      DefaultMapsDistinct();
    }
    var t' := SeedNades(t1, now).value;
    assert |t'.maps| > 0 && |t'.nades| > 0 by {
      SeedNadesResult(t1, now);
      if |t1.nades| == 0 {
        assert t1.nadeSeq + 1 in t'.nades;
      }
    }
  }

  /** The eight default map names are pairwise different, so seeding them cannot break UNIQUE. */
  lemma DefaultMapsDistinct()
    ensures Distinct(DefaultMaps)
  {
  }

  /**
   * The first start over an empty file: the eight default maps, and the
   * three demo nades under ids 1, 2 and 3, all stamped `now`.
   */
  lemma {:induction false} FirstStart(now: Timestamp)
    ensures SeedNades(SeedMaps(EmptyTables), now) == Ok(Tables(DefaultMaps, map[
      1 := NadeRecord(1, DemoNades[0], now, now),
      2 := NadeRecord(2, DemoNades[1], now, now),
      3 := NadeRecord(3, DemoNades[2], now, now)], 3))
  {
    var t := SeedMaps(EmptyTables);
    assert DemoNades[1..][1..] == [DemoNades[2]];
  }

  /** A transaction's resulting tables: its own when it commits, the earlier ones when it rolls back. */
  function After(before: Tables, outcome: Result<Tables, Error>): Tables
  {
    if outcome.Ok? then outcome.value else before
  }

  /** What a transaction reports to its caller: success, or the error that rolled it back. */
  function Status(outcome: Result<Tables, Error>): Result<(), Error>
  {
    if outcome.Ok? then Ok(()) else Err(outcome.error)
  }

  /** `INSERT OR IGNORE INTO maps`: each name not yet stored is added after the existing rows. */
  function AddMissing(maps: seq<string>, names: seq<string>): seq<string>
    decreases |names|
  {
    if names == [] then maps
    else AddMissing(if names[0] in maps then maps else maps + [names[0]], names[1..])
  }

  /**
   * INSERT OR IGNORE never breaks uniqueness, keeps the existing rows in
   * place, and leaves exactly the old names plus the given ones.
   */
  lemma {:induction false} AddMissingResult(maps: seq<string>, names: seq<string>)
    requires Distinct(maps)
    ensures var r := AddMissing(maps, names);
      && Distinct(r)
      && |r| >= |maps| && r[..|maps|] == maps
      && forall x :: x in r <==> x in maps || x in names
    decreases |names|
  {
    if names != [] {
      var next := if names[0] in maps then maps else maps + [names[0]];
      AddMissingResult(next, names[1..]);
      var r := AddMissing(maps, names);
      assert r[..|next|][..|maps|] == r[..|maps|];
      assert next[..|maps|] == maps;
      forall x ensures x in r <==> x in maps || x in names {
        assert x in names <==> x == names[0] || x in names[1..];
      }
    }
  }

  /** Names that are all new and pairwise different are appended as they are. */
  lemma {:induction false} AddMissingAllNew(maps: seq<string>, names: seq<string>)
    requires Distinct(names)
    requires forall x :: x in names ==> x !in maps
    ensures AddMissing(maps, names) == maps + names
    decreases |names|
  {
    if names != [] {
      forall x | x in names[1..] ensures x !in maps + [names[0]] {
        var j :| 0 <= j < |names[1..]| && names[1..][j] == x;
        assert names[j + 1] == x;
      }
      AddMissingAllNew(maps + [names[0]], names[1..]);
      assert maps + [names[0]] + names[1..] == maps + names;
    }
  }

  /** The payload of export and import: map names and complete nade rows. */
  datatype Payload = Payload(maps: seq<string>, nades: seq<NadeRecord>)

  /**
   * An INSERT with the caller's id: refused when the id is not a 64-bit
   * integer or already present; otherwise stored, and the AUTOINCREMENT
   * counter raised to the id when the id is larger.
   */
  function InsertWithId(t: Tables, x: NadeRecord): Result<Tables, Error>
  {
    if !IsRowId(x.id) then Err(DatatypeMismatch)
    else if x.id in t.nades then Err(PrimaryKeyConstraint)
    else Ok(t.(nades := t.nades[x.id := x], nadeSeq := if x.id > t.nadeSeq then x.id else t.nadeSeq))
  }

  /** The explicit-id inserts of `rows`, in order; the first failure is the result. */
  function InsertRows(t: Tables, rows: seq<NadeRecord>): Result<Tables, Error>
    decreases |rows|
  {
    if rows == [] then Ok(t)
    else
      match InsertWithId(t, rows[0])
      case Err(e) => Err(e)
      case Ok(t') => InsertRows(t', rows[1..])
  }

  /** The import transaction: INSERT OR IGNORE every map name, then insert every nade with its own id. */
  function Import(t: Tables, p: Payload): Result<Tables, Error>
  {
    InsertRows(t.(maps := AddMissing(t.maps, p.maps)), p.nades)
  }

  /** Rows an import into a table holding `ids` accepts: 64-bit ids, none present, none repeated. */
  predicate Importable(ids: set<int>, rows: seq<NadeRecord>)
  {
    && (forall i :: 0 <= i < |rows| ==> IsRowId(rows[i].id) && rows[i].id !in ids)
    && (forall i, j :: 0 <= i < j < |rows| ==> rows[i].id != rows[j].id)
  }

  /** A row list is importable when its first row is, and the rest are importable after it. */
  lemma {:induction false} ImportableCons(ids: set<int>, rows: seq<NadeRecord>)
    requires rows != []
    ensures Importable(ids, rows) <==>
      IsRowId(rows[0].id) && rows[0].id !in ids && Importable(ids + {rows[0].id}, rows[1..])
  {
    var rest := rows[1..];
    assert forall i :: 0 <= i < |rest| ==> rest[i] == rows[i + 1];
    if IsRowId(rows[0].id) && rows[0].id !in ids && Importable(ids + {rows[0].id}, rest) {
      forall i, j | 0 <= i < j < |rows| ensures rows[i].id != rows[j].id {
        assert rows[j] == rest[j - 1];
        if i > 0 {
          assert rows[i] == rest[i - 1];
        }
      }
    }
  }

  /** The explicit-id inserts succeed exactly when the rows are importable. */
  lemma {:induction false} InsertRowsOk(t: Tables, rows: seq<NadeRecord>)
    ensures InsertRows(t, rows).Ok? <==> Importable(t.nades.Keys, rows)
    decreases |rows|
  {
    if rows != [] {
      ImportableCons(t.nades.Keys, rows);
      if InsertWithId(t, rows[0]).Ok? {
        var t1 := InsertWithId(t, rows[0]).value;
        assert t1.nades.Keys == t.nades.Keys + {rows[0].id};
        InsertRowsOk(t1, rows[1..]);
      }
    }
  }

  /**
   * Successful explicit-id inserts add exactly the given rows, keyed by
   * their ids, to the untouched earlier ones, and keep the table
   * well-formed.
   */
  lemma {:induction false} InsertRowsResult(t: Tables, rows: seq<NadeRecord>)
    requires WellFormed(t)
    requires InsertRows(t, rows).Ok?
    ensures var t' := InsertRows(t, rows).value;
      && WellFormed(t')
      && t'.maps == t.maps
      && (forall k :: k in t'.nades <==> k in t.nades || exists i :: 0 <= i < |rows| && rows[i].id == k)
      && (forall k :: k in t.nades ==> t'.nades[k] == t.nades[k])
      && (forall i :: 0 <= i < |rows| ==> t'.nades[rows[i].id] == rows[i])
    decreases |rows|
  {
    if rows != [] {
      var t1 := InsertWithId(t, rows[0]).value;
      InsertRowsResult(t1, rows[1..]);
      var t' := InsertRows(t, rows).value;
      var rest := rows[1..];
      assert forall i :: 0 <= i < |rest| ==> rest[i] == rows[i + 1];
      forall k ensures k in t'.nades <==> k in t.nades || exists i :: 0 <= i < |rows| && rows[i].id == k {
        if exists i :: 0 <= i < |rows| && rows[i].id == k {
          var i :| 0 <= i < |rows| && rows[i].id == k;
          if i > 0 {
            assert rest[i - 1] == rows[i];
          }
        }
        if exists i :: 0 <= i < |rest| && rest[i].id == k {
          var i :| 0 <= i < |rest| && rest[i].id == k;
          assert rows[i + 1].id == k;
        }
      }
      forall i | 0 <= i < |rows| ensures t'.nades[rows[i].id] == rows[i] {
        if i > 0 {
          assert rest[i - 1] == rows[i];
        }
      }
    }
  }

  /**
   * The import transaction succeeds exactly when the payload's nades are
   * importable; then the maps are the old ones plus the payload's, every
   * payload nade is stored under its own id with its own timestamps, and
   * every row that was there is unchanged.
   */
  lemma {:induction false} ImportResult(t: Tables, p: Payload)
    requires WellFormed(t)
    ensures Import(t, p).Ok? <==> Importable(t.nades.Keys, p.nades)
    ensures Import(t, p).Ok? ==>
      var t' := Import(t, p).value;
      && WellFormed(t')
      && |t'.maps| >= |t.maps| && t'.maps[..|t.maps|] == t.maps
      && (forall x :: x in t'.maps <==> x in t.maps || x in p.maps)
      && (forall k :: k in t'.nades <==> k in t.nades || exists i :: 0 <= i < |p.nades| && p.nades[i].id == k)
      && (forall k :: k in t.nades ==> t'.nades[k] == t.nades[k])
      && (forall i :: 0 <= i < |p.nades| ==> t'.nades[p.nades[i].id] == p.nades[i])
  {
    AddMissingResult(t.maps, p.maps);
    var t1 := t.(maps := AddMissing(t.maps, p.maps));
    InsertRowsOk(t1, p.nades);
    if InsertRows(t1, p.nades).Ok? {
      InsertRowsResult(t1, p.nades);
    }
  }

  /** `StrLe` is a total order, which is what ORDER BY name needs. */
  lemma NameOrder()
    ensures Total(StrLe) && Transitive(StrLe)
  {
    forall a, b ensures StrLe(a, b) || StrLe(b, a) {
      StrLeTotal(a, b);
    }
    forall a, b, c | StrLe(a, b) && StrLe(b, c) ensures StrLe(a, c) {
      StrLeTransitive(a, b, c);
    }
  }

  /** `listMaps`: the map names ordered by name. */
  function SortedNames(maps: seq<string>): (r: seq<string>)
    ensures SortedBy(StrLe, r)
    ensures multiset(r) == multiset(maps)
    ensures Distinct(maps) ==> Distinct(r)
  {
    NameOrder();
    if Distinct(maps) then
      SortByDistinct(StrLe, maps);
      SortBy(StrLe, maps)
    else
      SortBy(StrLe, maps)
  }

  /** The export snapshot: every map name in name order and every nade row in id order. */
  function Export(t: Tables): (p: Payload)
    ensures SortedBy(StrLe, p.maps) && multiset(p.maps) == multiset(t.maps)
    ensures |p.nades| == |t.nades|
  {
    Payload(SortedNames(t.maps), Rows(t.nades))
  }

  /**
   * Exporting a catalog and importing the result into a store whose nades
   * table is empty succeeds, reproduces every nade row with its id and
   * timestamps, and leaves the union of both sets of map names.
   */
  lemma {:induction false} ImportOfExport(s: Tables, t: Tables)
    requires WellFormed(s) && WellFormed(t)
    requires |t.nades| == 0
    ensures Import(t, Export(s)).Ok?
    ensures var t' := Import(t, Export(s)).value;
      && t'.nades == s.nades
      && forall x :: x in t'.maps <==> x in t.maps || x in s.maps
  {
    ExportedNadesImport(s, t);
    ExportedNamesImport(s, t);
  }

  /** The nade half of `ImportOfExport`. */
  lemma {:induction false} ExportedNadesImport(s: Tables, t: Tables)
    requires WellFormed(s) && WellFormed(t)
    requires |t.nades| == 0
    ensures Import(t, Export(s)).Ok?
    ensures Import(t, Export(s)).value.nades == s.nades
  {
    var t1 := t.(maps := AddMissing(t.maps, Export(s).maps));
    assert WellFormed(t1) by {
      AddMissingResult(t.maps, Export(s).maps);
    }
    ScanReloads(t1, s);
  }

  /** Inserting the scan of a well-formed table into an empty nades table gives back that table. */
  lemma {:induction false} ScanReloads(t: Tables, s: Tables)
    requires WellFormed(t) && WellFormed(s)
    requires |t.nades| == 0
    ensures InsertRows(t, Rows(s.nades)).Ok?
    ensures InsertRows(t, Rows(s.nades)).value.nades == s.nades
  {
    var rows := Rows(s.nades);
    assert t.nades.Keys == {};
    assert InsertRows(t, rows).Ok? by {
      ScanIsImportable(s);
      InsertRowsOk(t, rows);
    }
    var m' := InsertRows(t, rows).value.nades;
    assert forall k :: k in m' <==> exists i :: 0 <= i < |rows| && rows[i].id == k by {
      InsertRowsResult(t, rows);
    }
    assert forall i :: 0 <= i < |rows| ==> m'[rows[i].id] == rows[i] by {
      InsertRowsResult(t, rows);
    }
    RowsDetermineMap(s.nades, m');
  }

  /** The scan of a well-formed table can be imported into an empty one. */
  lemma {:induction false} ScanIsImportable(s: Tables)
    requires WellFormed(s)
    ensures Importable({}, Rows(s.nades))
  {
    var rows := Rows(s.nades);
    RowsAreTheTable(s.nades);
    forall i | 0 <= i < |rows| ensures IsRowId(rows[i].id) {
      assert Stored(s.nades, rows[i]);
    }
  }

  /** The map-name half of `ImportOfExport`. */
  lemma {:induction false} ExportedNamesImport(s: Tables, t: Tables)
    requires WellFormed(s) && WellFormed(t)
    requires Import(t, Export(s)).Ok?
    ensures forall x :: x in Import(t, Export(s)).value.maps <==> x in t.maps || x in s.maps
  {
    var p := Export(s);
    ImportResult(t, p);
    var t' := Import(t, p).value;
    forall x ensures x in t'.maps <==> x in t.maps || x in s.maps {
      assert x in p.maps <==> x in multiset(p.maps);
      assert x in s.maps <==> x in multiset(s.maps);
    }
  }

  /** A map that holds exactly the scanned rows, each under its id, is the scanned table. */
  lemma {:induction false} RowsDetermineMap(m: map<int, NadeRecord>, m': map<int, NadeRecord>)
    requires KeyedById(m)
    requires forall k :: k in m' <==> exists i :: 0 <= i < |Rows(m)| && Rows(m)[i].id == k
    requires forall i :: 0 <= i < |Rows(m)| ==> m'[Rows(m)[i].id] == Rows(m)[i]
    ensures m' == m
  {
    var rows := Rows(m);
    RowsAreTheTable(m);
    forall k | k in m ensures k in m' && m'[k] == m[k] {
      assert Stored(m, m[k]);
      var i :| 0 <= i < |rows| && rows[i] == m[k];
    }
    forall k | k in m' ensures k in m {
      var i :| 0 <= i < |rows| && rows[i].id == k;
      assert rows[i] in rows;
    }
    SameEntries(m, m');
  }

  /** Maps with the same keys and the same value under each key are equal. */
  lemma {:induction false} SameEntries(m: map<int, NadeRecord>, m': map<int, NadeRecord>)
    requires forall k :: k in m <==> k in m'
    requires forall k :: k in m ==> m'[k] == m[k]
    ensures m' == m
  {
    forall k ensures k in m.Keys <==> k in m'.Keys {
    }
    assert m'.Keys == m.Keys;
    assert forall k :: k in m'.Keys ==> m'[k] == m[k];
  }

  /** `ImportOfExport` for every target store at once. */
  lemma ImportOfExportAll(s: Tables)
    requires WellFormed(s)
    ensures forall t :: WellFormed(t) && |t.nades| == 0 ==>
      && Import(t, Export(s)).Ok?
      && Import(t, Export(s)).value.nades == s.nades
      && forall x :: x in Import(t, Export(s)).value.maps <==> x in t.maps || x in s.maps
  {
    forall t | WellFormed(t) && |t.nades| == 0
      ensures && Import(t, Export(s)).Ok?
              && Import(t, Export(s)).value.nades == s.nades
              && forall x :: x in Import(t, Export(s)).value.maps <==> x in t.maps || x in s.maps
    {
      ImportOfExport(s, t);
    }
  }

  /**
   * The round trip: importing an export into an empty store and exporting
   * again gives back the same export, ids and timestamps included. An empty
   * store here has no map names either, which is the file before its first
   * seeding; a seeded store keeps its names, and `ImportOfExport` is the
   * round trip for it.
   */
  lemma {:induction false} ExportImportRoundTrip(s: Tables, t: Tables)
    requires WellFormed(s) && WellFormed(t)
    requires t.maps == [] && |t.nades| == 0
    ensures Import(t, Export(s)).Ok?
    ensures Export(Import(t, Export(s)).value) == Export(s)
  {
    var p := Export(s);
    ImportOfExport(s, t);
    var t' := Import(t, p).value;
    assert Distinct(p.maps);
    AddMissingAllNew([], p.maps);
    assert [] + p.maps == p.maps;
    InsertRowsResult(t.(maps := p.maps), p.nades);
    assert t'.maps == p.maps;
    SortBySorted(StrLe, p.maps);
  }
}
