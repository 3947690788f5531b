/**
 * The catalog store: the module-level database handle and the tables of the
 * database file behind it, with one method per exported store operation.
 * Every operation refuses to run before `InitDb` has opened the database.
 */
module Db {
  import opened Wrappers
  import opened Text
  import opened Sorting
  import opened Records
  import opened Catalog

  class CatalogStore {
    /** Whether `InitDb` has opened the database (the handle is not null). */
    var initialized: bool
    /** The `maps` table: names in row-id order. */
    var maps: seq<string>
    /** The `nades` table, by id. */
    var nades: map<int, NadeRecord>
    /** The AUTOINCREMENT counter of `nades`. */
    var nadeSeq: int
    /** Every id the `nades` table has held since the file was opened. */
    ghost var usedIds: set<int>

    /** The tables as a value. */
    function Snapshot(): Tables
      reads this
    {
      Tables(maps, nades, nadeSeq)
    }

    /** The tables are well-formed, and the counter is at least every id ever held. */
    ghost predicate Valid()
      reads this
    {
      && WellFormed(Snapshot())
      && nades.Keys <= usedIds
      && forall id :: id in usedIds ==> id <= nadeSeq
    }

    /** A store over the database file's current content, before `InitDb`. */
    constructor (file: Tables)
      requires WellFormed(file)
      ensures Valid() && !initialized && Snapshot() == file
    {
      initialized := false;
      maps, nades, nadeSeq := file.maps, file.nades, file.nadeSeq;
      usedIds := file.nades.Keys;
    }

    /**
     * Opens the database once: a second call changes nothing. The first call
     * seeds the maps table, then the nades table, each only when empty; a
     * failed nade seeding rolls back its own transaction only.
     */
    method InitDb(now: Timestamp) returns (r: Result<(), Error>)
      requires Valid()
      modifies this
      ensures Valid() && initialized
      ensures old(initialized) ==> r == Ok(()) && Snapshot() == old(Snapshot())
      ensures !old(initialized) ==>
        var seeded := Catalog.SeedMaps(old(Snapshot()));
        && r == Status(Catalog.SeedNades(seeded, now))
        && Snapshot() == After(seeded, Catalog.SeedNades(seeded, now))
    {
      if initialized {
        return Ok(());
      }
      initialized := true;
      SeedMaps();
      r := SeedNades(now);
    }

    /** Inserts the default maps, one by one in one transaction, when the maps table is empty. */
    method SeedMaps()
      requires Valid() && initialized
      modifies this
      ensures Valid() && initialized && usedIds == old(usedIds)
      ensures Snapshot() == Catalog.SeedMaps(old(Snapshot()))
    {
      if |maps| > 0 {
        return;
      }
      DefaultMapsDistinct();
      var i := 0;
      while i < |DefaultMaps|
        invariant 0 <= i <= |DefaultMaps|
        invariant Valid() && initialized && usedIds == old(usedIds)
        invariant maps == DefaultMaps[..i]
        invariant nades == old(nades) && nadeSeq == old(nadeSeq)
      {
        assert DefaultMaps[i] !in DefaultMaps[..i];
        var _ := AddMap(DefaultMaps[i]);
        assert DefaultMaps[..i + 1] == DefaultMaps[..i] + [DefaultMaps[i]];
        i := i + 1;
      }
    }

    /**
     * Inserts the demo nades, all stamped `now`, in one transaction when the
     * nades table is empty; if one insert fails, none stays.
     */
    method SeedNades(now: Timestamp) returns (r: Result<(), Error>)
      requires Valid() && initialized
      modifies this
      ensures Valid() && initialized
      ensures r == Status(Catalog.SeedNades(old(Snapshot()), now))
      ensures Snapshot() == After(old(Snapshot()), Catalog.SeedNades(old(Snapshot()), now))
    {
      if |nades| > 0 {
        return Ok(());
      }
      var savedNades, savedSeq := nades, nadeSeq;
      ghost var savedUsed := usedIds;
      var i := 0;
      while i < |DemoNades|
        invariant 0 <= i <= |DemoNades|
        invariant Valid() && initialized && maps == old(maps)
        invariant InsertAll(old(Snapshot()), DemoNades, now, now) == InsertAll(Snapshot(), DemoNades[i..], now, now)
      {
        ghost var before := Snapshot();
        assert DemoNades[i..][0] == DemoNades[i] && DemoNades[i..][1..] == DemoNades[i + 1..];
        var inserted := InsertNade(DemoNades[i], now, now);
        if inserted.Err? {
          nades, nadeSeq, usedIds := savedNades, savedSeq, savedUsed;
          return Err(inserted.error);
        }
        i := i + 1;
      }
      r := Ok(());
    }

    /** `listMaps`: every map name, ordered by name. */
    function ListMaps(): (r: Result<seq<string>, Error>)
      reads this
      ensures r.Ok? <==> initialized
      ensures !initialized ==> r == Err(NotInitialized)
      ensures r.Ok? ==> SortedBy(StrLe, r.value) && multiset(r.value) == multiset(maps)
    {
      if !initialized then Err(NotInitialized) else Ok(SortedNames(maps))
    }

    /** `addMap`: a plain INSERT, which the UNIQUE constraint refuses for a name already stored. */
    method AddMap(name: string) returns (r: Result<(), Error>)
      requires Valid()
      modifies this
      ensures Valid()
      ensures initialized == old(initialized) && usedIds == old(usedIds)
      ensures nades == old(nades) && nadeSeq == old(nadeSeq)
      ensures !old(initialized) ==> r == Err(NotInitialized) && maps == old(maps)
      ensures old(initialized) ==> (r.Ok? <==> name !in old(maps))
      ensures old(initialized) && name in old(maps) ==> r == Err(UniqueConstraint) && maps == old(maps)
      ensures old(initialized) && name !in old(maps) ==> maps == old(maps) + [name]
    {
      if !initialized {
        return Err(NotInitialized);
      }
      if name in maps {
        return Err(UniqueConstraint);
      }
      maps := maps + [name];
      r := Ok(());
    }

    /** `INSERT OR IGNORE INTO maps`: adds the name unless it is already stored. */
    method InsertMapOrIgnore(name: string)
      requires Valid()
      modifies this
      ensures Valid()
      ensures initialized == old(initialized) && usedIds == old(usedIds)
      ensures nades == old(nades) && nadeSeq == old(nadeSeq)
      ensures maps == if name in old(maps) then old(maps) else old(maps) + [name]
    {
      if name !in maps {
        maps := maps + [name];
      }
    }

    /** The AUTOINCREMENT insert: the new row gets an id above every id the table has held. */
    method InsertNade(x: NadeInput, createdAt: Timestamp, updatedAt: Timestamp) returns (r: Result<int, Error>)
      requires Valid()
      modifies this
      ensures Valid() && initialized == old(initialized)
      ensures Snapshot() == After(old(Snapshot()), InsertNext(old(Snapshot()), x, createdAt, updatedAt))
      ensures r.Ok? <==> old(nadeSeq) < MaxRowId
      ensures r.Err? ==> r.error == DatabaseFull
      ensures r.Ok? ==> r.value == nadeSeq && (forall k :: k in old(usedIds) ==> k < r.value)
      ensures usedIds == if r.Ok? then old(usedIds) + {r.value} else old(usedIds)
    {
      if nadeSeq >= MaxRowId {
        return Err(DatabaseFull);
      }
      var id := nadeSeq + 1;
      nades := nades[id := NadeRecord(id, x, createdAt, updatedAt)];
      nadeSeq := id;
      usedIds := usedIds + {id};
      r := Ok(id);
    }

    /**
     * `createNade`: stores the input with both timestamps `now` and returns
     * its new id, which no row has had before; nothing else changes.
     */
    method CreateNade(input: NadeInput, now: Timestamp) returns (r: Result<int, Error>)
      requires Valid()
      modifies this
      ensures Valid() && initialized == old(initialized)
      ensures !old(initialized) ==> r == Err(NotInitialized) && Snapshot() == old(Snapshot())
      ensures old(initialized) ==> (r.Ok? <==> old(nadeSeq) < MaxRowId)
      ensures old(initialized) && r.Err? ==> r.error == DatabaseFull && Snapshot() == old(Snapshot())
      ensures old(initialized) ==> Snapshot() == After(old(Snapshot()), InsertNext(old(Snapshot()), input, now, now))
      ensures r.Ok? ==>
        && r.value !in old(nades)
        && (forall k :: k in old(usedIds) ==> k < r.value)
        && nades == old(nades)[r.value := NadeRecord(r.value, input, now, now)]
        && maps == old(maps)
        && nadeSeq == r.value
        && usedIds == old(usedIds) + {r.value}
      ensures r.Err? ==> usedIds == old(usedIds)
    {
      if !initialized {
        return Err(NotInitialized);
      }
      r := InsertNade(input, now, now);
    }

    /**
     * `updateNade`: overwrites the eleven editable columns and `updatedAt` of
     * the row with that id, keeping its id and `createdAt`; an unknown id
     * changes nothing.
     */
    method UpdateNade(id: int, input: NadeInput, now: Timestamp) returns (r: Result<(), Error>)
      requires Valid()
      modifies this
      ensures Valid() && initialized == old(initialized) && usedIds == old(usedIds)
      ensures maps == old(maps) && nadeSeq == old(nadeSeq)
      ensures r.Ok? <==> old(initialized)
      ensures r.Err? ==> r.error == NotInitialized && nades == old(nades)
      ensures r.Ok? ==> nades.Keys == old(nades).Keys
      ensures r.Ok? ==> forall k :: k in nades && k != id ==> nades[k] == old(nades)[k]
      ensures r.Ok? && id in nades ==>
        nades[id] == NadeRecord(id, input, old(nades)[id].createdAt, now)
    {
      if !initialized {
        return Err(NotInitialized);
      }
      if id in nades {
        nades := nades[id := nades[id].(fields := input, updatedAt := now)];
      }
      r := Ok(());
    }

    /**
     * `deleteNade`: removes the row with that id, if any. Its id stays used,
     * so no later insert hands it out again.
     */
    method DeleteNade(id: int) returns (r: Result<(), Error>)
      requires Valid()
      modifies this
      ensures Valid() && initialized == old(initialized) && usedIds == old(usedIds)
      ensures maps == old(maps) && nadeSeq == old(nadeSeq)
      ensures r.Ok? <==> old(initialized)
      ensures r.Err? ==> r.error == NotInitialized && nades == old(nades)
      ensures r.Ok? ==> id !in nades && forall k :: k in old(nades) && k != id ==> k in nades && nades[k] == old(nades)[k]
      ensures r.Ok? ==> forall k :: k in nades ==> k in old(nades)
    {
      if !initialized {
        return Err(NotInitialized);
      }
      nades := nades - {id};
      r := Ok(());
    }

    /** `getNade`: the row whose id is `id`, if there is one. */
    function GetNade(id: int): (r: Result<Option<NadeRecord>, Error>)
      requires Valid()
      reads this
      ensures r.Ok? <==> initialized
      ensures !initialized ==> r == Err(NotInitialized)
      ensures r.Ok? ==> forall x :: r.value == Some(x) <==> Stored(nades, x) && x.id == id
      ensures r.Ok? && r.value.None? ==> forall x :: x in Rows(nades) ==> x.id != id
    {
      if !initialized then Err(NotInitialized)
      else
        RowsAreTheTable(nades);
        if id in nades then Ok(Some(nades[id])) else Ok(None)
    }

    /**
     * `listNades`: the rows that match the filters, ordered as `sort` asks.
     * The WHERE clause is built from the filters, applied to a scan of the
     * table, and the result sorted.
     */
    method ListNades(filters: NadeFilters) returns (r: Result<seq<NadeRecord>, Error>)
      requires Valid()
      ensures r.Ok? <==> initialized
      ensures !initialized ==> r == Err(NotInitialized)
      ensures r.Ok? ==> SortedBy(PrecedesUnder(OrderOf(filters.sort)), r.value)
      ensures r.Ok? ==> multiset(r.value) == multiset(Matching(filters, Rows(nades)))
      ensures r.Ok? ==> forall x :: x in r.value <==> Stored(nades, x) && Matches(filters, x)
      ensures r.Ok? ==> Distinct(r.value)
    {
      if !initialized {
        return Err(NotInitialized);
      }
      var clauses := BuildClauses(filters);
      var scan := Rows(nades);
      RowsAreTheTable(nades);
      var selected := Select(clauses, scan);
      SelectIsMatching(clauses, filters, scan);
      var order := PrecedesUnder(OrderOf(filters.sort));
      PrecedesIsTotalPreorder(OrderOf(filters.sort));
      SortByDistinct(order, selected);
      var sorted := SortBy(order, selected);
      assert forall x :: x in sorted <==> x in selected by {
        forall x ensures x in sorted <==> x in selected {
          assert x in sorted <==> x in multiset(sorted);
          assert x in selected <==> x in multiset(selected);
        }
      }
      r := Ok(sorted);
    }

    /**
     * `exportJson`: the map names in name order and every nade row. Importing
     * the export into any store without nades (a seeded store whose nades
     * were all deleted, say) reproduces the nades table exactly and leaves
     * the union of the map names; into a file whose two tables are both
     * empty, the store before its first seeding, it reproduces the whole
     * export.
     */
    function ExportJson(): (r: Result<Payload, Error>)
      requires Valid()
      reads this
      ensures r.Ok? <==> initialized
      ensures !initialized ==> r == Err(NotInitialized)
      ensures r.Ok? ==> r.value == Export(Snapshot())
      ensures r.Ok? ==> forall x :: x in r.value.nades <==> Stored(nades, x)
      ensures r.Ok? ==> forall t :: WellFormed(t) && |t.nades| == 0 ==>
        && Import(t, r.value).Ok?
        && Import(t, r.value).value.nades == nades
        && forall x :: x in Import(t, r.value).value.maps <==> x in t.maps || x in maps
      ensures r.Ok? ==> Import(EmptyTables, r.value).Ok? && Export(Import(EmptyTables, r.value).value) == r.value
    {
      if !initialized then Err(NotInitialized)
      else
        ImportOfExportAll(Snapshot());
        ExportImportRoundTrip(Snapshot(), EmptyTables);
        RowsAreTheTable(nades);
        Ok(Export(Snapshot()))
    }

    /** The INSERT that keeps the caller's id; the counter rises to the id when it is larger. */
    method InsertNadeWithId(x: NadeRecord) returns (r: Result<(), Error>)
      requires Valid()
      modifies this
      ensures Valid() && initialized == old(initialized)
      ensures r == Status(Catalog.InsertWithId(old(Snapshot()), x))
      ensures Snapshot() == After(old(Snapshot()), Catalog.InsertWithId(old(Snapshot()), x))
    {
      if !IsRowId(x.id) {
        return Err(DatatypeMismatch);
      }
      if x.id in nades {
        return Err(PrimaryKeyConstraint);
      }
      nades := nades[x.id := x];
      if x.id > nadeSeq {
        nadeSeq := x.id;
      }
      usedIds := usedIds + {x.id};
      r := Ok(());
    }

    /**
     * `importJson`: in one transaction, INSERT OR IGNORE every map name, then
     * insert every nade with its own id and timestamps; the first failure
     * rolls the whole import back.
     */
    method ImportJson(p: Payload) returns (r: Result<(), Error>)
      requires Valid()
      modifies this
      ensures Valid() && initialized == old(initialized)
      ensures !old(initialized) ==> r == Err(NotInitialized) && Snapshot() == old(Snapshot())
      ensures old(initialized) ==>
        && r == Status(Import(old(Snapshot()), p))
        && Snapshot() == After(old(Snapshot()), Import(old(Snapshot()), p))
    {
      if !initialized {
        return Err(NotInitialized);
      }
      var savedMaps, savedNades, savedSeq := maps, nades, nadeSeq;
      ghost var savedUsed := usedIds;
      var i := 0;
      while i < |p.maps|
        invariant 0 <= i <= |p.maps|
        invariant Valid() && initialized && usedIds == savedUsed
        invariant nades == savedNades && nadeSeq == savedSeq
        invariant AddMissing(savedMaps, p.maps) == AddMissing(maps, p.maps[i..])
      {
        assert p.maps[i..][0] == p.maps[i] && p.maps[i..][1..] == p.maps[i + 1..];
        InsertMapOrIgnore(p.maps[i]);
        i := i + 1;
      }
      assert p.maps[i..] == [];
      ghost var mid := Snapshot();
      assert Import(old(Snapshot()), p) == InsertRows(mid, p.nades);
      var j := 0;
      while j < |p.nades|
        invariant 0 <= j <= |p.nades|
        invariant Valid() && initialized
        invariant InsertRows(mid, p.nades) == InsertRows(Snapshot(), p.nades[j..])
      {
        assert p.nades[j..][0] == p.nades[j] && p.nades[j..][1..] == p.nades[j + 1..];
        var inserted := InsertNadeWithId(p.nades[j]);
        if inserted.Err? {
          maps, nades, nadeSeq, usedIds := savedMaps, savedNades, savedSeq, savedUsed;
          return Err(inserted.error);
        }
        j := j + 1;
      }
      assert p.nades[j..] == [];
      r := Ok(());
    }
  }
}
