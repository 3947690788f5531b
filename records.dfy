/**
 * The nade record, its editable input, the list filters, and the two halves
 * of the nade list query: the WHERE clause built from the filters and the
 * ORDER BY relation chosen by `sort`.
 */
module Records {
  import opened Wrappers
  import opened Text
  import opened Sorting

  /**
   * A point in time in milliseconds since the Unix epoch, the precision of
   * the ISO-8601 strings the store writes.
   */
  type Timestamp = int

  /**
   * The whole second `datetime()` reduces a timestamp to: it keeps
   * `YYYY-MM-DD HH:MM:SS` and drops the milliseconds, which rounds down.
   */
  function Second(t: Timestamp): int
  {
    t / 1000
  }

  /**
   * The eleven editable columns of a nade. `mapName` is the `map` column
   * (`map` is a Dafny keyword); the three nullable columns are options.
   */
  datatype NadeInput = NadeInput(
    title: string,
    mapName: string,
    side: string,
    startPosition: string,
    targetPosition: string,
    nadeType: string,
    description: string,
    tags: string,
    localVideoPath: Option<string>,
    videoUrl: Option<string>,
    thumbnailUrl: Option<string>)

  /** A stored row: the row id, the editable columns and the two timestamps. */
  datatype NadeRecord = NadeRecord(id: int, fields: NadeInput, createdAt: Timestamp, updatedAt: Timestamp)

  /** The optional filters of the list query; `sort` is free text from the caller. */
  datatype NadeFilters = NadeFilters(
    mapName: Option<string>,
    side: Option<string>,
    startPosition: Option<string>,
    nadeType: Option<string>,
    search: Option<string>,
    sort: Option<string>)

  /** A filter takes part only when it is present and not the empty string. */
  predicate Given(f: Option<string>)
  {
    f.Some? && f.value != ""
  }

  /** The LIKE pattern the search filter binds: the search text between two `%`. */
  function SearchPattern(search: string): string
  {
    "%" + search + "%"
  }

  /** The search clause: the pattern matches the title, the tags or the description. */
  predicate TextMatches(pattern: string, x: NadeInput)
  {
    Like(pattern, x.title) || Like(pattern, x.tags) || Like(pattern, x.description)
  }

  /** What a record must satisfy to be listed under the given filters. */
  predicate Matches(f: NadeFilters, r: NadeRecord)
  {
    && (Given(f.mapName) ==> r.fields.mapName == f.mapName.value)
    && (Given(f.side) ==> r.fields.side == f.side.value)
    && (Given(f.startPosition) ==> r.fields.startPosition == f.startPosition.value)
    && (Given(f.nadeType) ==> r.fields.nadeType == f.nadeType.value)
    && (Given(f.search) ==> TextMatches(SearchPattern(f.search.value), r.fields))
  }

  /** For a search text free of `%` and `_`, the search clause is case-insensitive substring search. */
  lemma SearchIsSubstring(search: string, x: NadeInput)
    requires NoWildcards(search)
    ensures TextMatches(SearchPattern(search), x) <==>
              ContainsIgnoringCase(x.title, search)
              || ContainsIgnoringCase(x.tags, search)
              || ContainsIgnoringCase(x.description, search)
  {
    SearchPatternIsSubstring(search, x.title);
    SearchPatternIsSubstring(search, x.tags);
    SearchPatternIsSubstring(search, x.description);
  }

  /** The columns an equality clause can test. */
  datatype Column = MapColumn | SideColumn | StartPositionColumn | NadeTypeColumn

  function ColumnValue(x: NadeInput, c: Column): string
  {
    match c
    case MapColumn => x.mapName
    case SideColumn => x.side
    case StartPositionColumn => x.startPosition
    case NadeTypeColumn => x.nadeType
  }

  /** One conjunct of the WHERE clause with its bound parameter. */
  datatype Clause = Equals(column: Column, value: string) | TextLike(pattern: string)

  predicate Holds(c: Clause, r: NadeRecord)
  {
    match c
    case Equals(column, value) => ColumnValue(r.fields, column) == value
    case TextLike(pattern) => TextMatches(pattern, r.fields)
  }

  /** The conjunction of the clauses; no clause at all means no WHERE, so every row. */
  predicate HoldsAll(clauses: seq<Clause>, r: NadeRecord)
  {
    forall i :: 0 <= i < |clauses| ==> Holds(clauses[i], r)
  }

  /** The number of filters that take part. */
  function GivenCount(f: NadeFilters): nat
  {
    (if Given(f.mapName) then 1 else 0) + (if Given(f.side) then 1 else 0)
    + (if Given(f.startPosition) then 1 else 0) + (if Given(f.nadeType) then 1 else 0)
    + (if Given(f.search) then 1 else 0)
  }

  /**
   * Builds the WHERE clause one conjunct at a time, in the order the filters
   * are examined: a row satisfies the built clauses exactly when it matches
   * the filters.
   */
  method BuildClauses(f: NadeFilters) returns (clauses: seq<Clause>)
    ensures |clauses| == GivenCount(f)
    ensures forall r :: HoldsAll(clauses, r) <==> Matches(f, r)
  {
    clauses := [];
    if Given(f.mapName) {
      Push(clauses, Equals(MapColumn, f.mapName.value));
      clauses := clauses + [Equals(MapColumn, f.mapName.value)];
    }
    assert forall r :: HoldsAll(clauses, r) <==> (Given(f.mapName) ==> r.fields.mapName == f.mapName.value);
    ghost var before := clauses;
    if Given(f.side) {
      Push(clauses, Equals(SideColumn, f.side.value));
      clauses := clauses + [Equals(SideColumn, f.side.value)];
    }
    assert forall r :: HoldsAll(clauses, r) <==> HoldsAll(before, r) && (Given(f.side) ==> r.fields.side == f.side.value);
    before := clauses;
    if Given(f.startPosition) {
      Push(clauses, Equals(StartPositionColumn, f.startPosition.value));
      clauses := clauses + [Equals(StartPositionColumn, f.startPosition.value)];
    }
    assert forall r :: HoldsAll(clauses, r) <==> HoldsAll(before, r) && (Given(f.startPosition) ==> r.fields.startPosition == f.startPosition.value);
    before := clauses;
    if Given(f.nadeType) {
      Push(clauses, Equals(NadeTypeColumn, f.nadeType.value));
      clauses := clauses + [Equals(NadeTypeColumn, f.nadeType.value)];
    }
    assert forall r :: HoldsAll(clauses, r) <==> HoldsAll(before, r) && (Given(f.nadeType) ==> r.fields.nadeType == f.nadeType.value);
    before := clauses;
    if Given(f.search) {
      Push(clauses, TextLike(SearchPattern(f.search.value)));
      clauses := clauses + [TextLike(SearchPattern(f.search.value))];
    }
    assert forall r :: HoldsAll(clauses, r) <==> HoldsAll(before, r) && (Given(f.search) ==> TextMatches(SearchPattern(f.search.value), r.fields));
  }

  /** What appending one conjunct does to the meaning of the clause list. */
  lemma Push(clauses: seq<Clause>, c: Clause)
    ensures forall r :: HoldsAll(clauses + [c], r) <==> HoldsAll(clauses, r) && Holds(c, r)
  {
    assert (clauses + [c])[|clauses|] == c;
    assert forall i :: 0 <= i < |clauses| ==> (clauses + [c])[i] == clauses[i];
  }

  /** The three orders the `sort` filter selects between. */
  datatype SortOrder = ByMapThenTitle | ByTitle | NewestFirst

  /** `'map'` and `'title'` select their orders; anything else, absent included, sorts newest first. */
  function OrderOf(sort: Option<string>): SortOrder
  {
    if sort == Some("map") then ByMapThenTitle
    else if sort == Some("title") then ByTitle
    else NewestFirst
  }

  /** `a` may be listed before `b` under the order; rows that tie may come in either order. */
  predicate Precedes(order: SortOrder, a: NadeRecord, b: NadeRecord)
  {
    match order
    case ByMapThenTitle =>
      if a.fields.mapName == b.fields.mapName then StrLe(a.fields.title, b.fields.title)
      else StrLe(a.fields.mapName, b.fields.mapName)
    case ByTitle => StrLe(a.fields.title, b.fields.title)
    case NewestFirst => Second(a.createdAt) >= Second(b.createdAt)
  }

  lemma PrecedesTotal(order: SortOrder, a: NadeRecord, b: NadeRecord)
    ensures Precedes(order, a, b) || Precedes(order, b, a)
  {
    StrLeTotal(a.fields.mapName, b.fields.mapName);
    StrLeTotal(a.fields.title, b.fields.title);
  }

  lemma PrecedesTransitive(order: SortOrder, a: NadeRecord, b: NadeRecord, c: NadeRecord)
    requires Precedes(order, a, b) && Precedes(order, b, c)
    ensures Precedes(order, a, c)
  {
    match order
    case ByMapThenTitle =>
      var x, y, z := a.fields, b.fields, c.fields;
      if x.mapName == y.mapName && y.mapName == z.mapName {
        StrLeTransitive(x.title, y.title, z.title);
      } else if x.mapName == y.mapName || y.mapName == z.mapName {
      } else {
        StrLeTransitive(x.mapName, y.mapName, z.mapName);
        if x.mapName == z.mapName {
          StrLeAntisymmetric(x.mapName, y.mapName);
        }
      }
    case ByTitle =>
      StrLeTransitive(a.fields.title, b.fields.title, c.fields.title);
    case NewestFirst =>
  }

  /** The comparison the sort uses, as a function value. */
  function PrecedesUnder(order: SortOrder): (NadeRecord, NadeRecord) -> bool
  {
    (a, b) => Precedes(order, a, b)
  }

  /**
   * Newest first compares whole seconds: two rows created within the same
   * second tie, so either may be listed first.
   */
  lemma SameSecondTies(a: NadeRecord, b: NadeRecord)
    requires Second(a.createdAt) == Second(b.createdAt)
    ensures Precedes(NewestFirst, a, b) && Precedes(NewestFirst, b, a)
  {
  }

  /** A row created in a later second is listed before an older one, never after it. */
  lemma LaterSecondFirst(a: NadeRecord, b: NadeRecord)
    requires Second(a.createdAt) > Second(b.createdAt)
    ensures Precedes(NewestFirst, a, b) && !Precedes(NewestFirst, b, a)
  {
  }

  /** Each of the three orders is a total preorder, so the sort can honour it. */
  lemma PrecedesIsTotalPreorder(order: SortOrder)
    ensures Total(PrecedesUnder(order)) && Transitive(PrecedesUnder(order))
  {
    var le := PrecedesUnder(order);
    forall a, b ensures le(a, b) || le(b, a) {
      PrecedesTotal(order, a, b);
    }
    forall a, b, c | le(a, b) && le(b, c) ensures le(a, c) {
      PrecedesTransitive(order, a, b, c);
    }
  }
}
