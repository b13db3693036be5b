/**
 The logical catalog: lookups by binary search over sorted metadata.

 Names are sequences of code points. UTF-8 orders strings by code point as well, and an identifier
 with a code point outside ASCII is refused, so byte order and byte length need no model of their own.
 */
module CatalogLookup {
  import opened Machine

  const MAX_CATALOG_IDENTIFIER_BYTES: nat := 63
  const MAX_LOGICAL_DATABASES: nat := 64
  const MAX_TABLES: nat := 4096
  const DEFAULT_LOGICAL_DATABASE_NAME: string := "default"

  datatype Ordering = Less | Equal | Greater

  // ---------------------------------------------------------------- orders

  function CompareNumbers(a: nat, b: nat): Ordering {
    if a < b then Less else if a == b then Equal else Greater
  }

  function CompareStrings(a: string, b: string): Ordering {
    if a == [] && b == [] then Equal
    else if a == [] then Less
    else if b == [] then Greater
    else if a[0] != b[0] then (if a[0] < b[0] then Less else Greater)
    else CompareStrings(a[1..], b[1..])
  }

  /** Tuple order: the database first, the name among equals. */
  function CompareKeys(id: nat, name: string, otherId: nat, otherName: string): Ordering {
    if id == otherId then CompareStrings(name, otherName) else CompareNumbers(id, otherId)
  }

  lemma {:induction false} CompareStringsEqual(a: string, b: string)
    ensures CompareStrings(a, b) == Equal <==> a == b
  {
    if a != [] && b != [] && a[0] == b[0] {
      CompareStringsEqual(a[1..], b[1..]);
      assert a == [a[0]] + a[1..] && b == [b[0]] + b[1..];
    }
  }

  lemma {:induction false} CompareStringsTransitive(a: string, b: string, c: string)
    requires CompareStrings(a, b) == Less && CompareStrings(b, c) != Greater
    ensures CompareStrings(a, c) == Less
  {
    if a != [] && a[0] == b[0] && b[0] == c[0] {
      CompareStringsTransitive(a[1..], b[1..], c[1..]);
    }
  }

  /** Before the first difference the strings agree; there the shorter one ends or has the smaller character. */
  predicate FirstDifference(a: string, b: string, k: nat) {
    && k <= |a| && k < |b| && a[..k] == b[..k]
    && (k < |a| ==> a[k] < b[k])
  }

  lemma DifferenceLater(a: string, b: string, k: nat)
    requires a != [] && b != [] && a[0] == b[0]
    ensures FirstDifference(a, b, k + 1) <==> FirstDifference(a[1..], b[1..], k)
    ensures !FirstDifference(a, b, 0)
  {
    if k < |a| && k + 1 < |b| {
      assert a[..k + 1] == [a[0]] + a[1..][..k] && b[..k + 1] == [b[0]] + b[1..][..k];
      assert a[1..][..k] == a[..k + 1][1..] && b[1..][..k] == b[..k + 1][1..];
    }
  }

  lemma DifferenceAtOnce(a: string, b: string, k: nat)
    requires a != [] && b != [] && a[0] != b[0]
    ensures FirstDifference(a, b, k) ==> k == 0 && a[0] < b[0]
  {
    if 0 < k <= |a| && k < |b| {
      assert a[..k][0] == a[0] && b[..k][0] == b[0];
    }
  }

  /** The order of names is the lexicographic one. */
  lemma {:induction false} CompareStringsMeaning(a: string, b: string)
    ensures CompareStrings(a, b) == Less <==> exists k: nat :: FirstDifference(a, b, k)
  {
    if a == [] || b == [] {
      assert b != [] ==> FirstDifference(a, b, 0);
    } else if a[0] == b[0] {
      CompareStringsMeaning(a[1..], b[1..]);
      if k: nat :| FirstDifference(a[1..], b[1..], k) {
        DifferenceLater(a, b, k);
      }
      if k: nat :| FirstDifference(a, b, k) {
        DifferenceLater(a, b, if k == 0 then 0 else k - 1);
      }
    } else {
      assert a[0] < b[0] ==> FirstDifference(a, b, 0);
      if k: nat :| FirstDifference(a, b, k) {
        DifferenceAtOnce(a, b, k);
      }
    }
  }

  // ---------------------------------------------------------------- binary search

  /** Rows below the sought key, then rows equal to it, then rows above it. */
  predicate Partitioned<T>(rows: seq<T>, cmp: T -> Ordering) {
    forall i, j | 0 <= i < j < |rows| ::
      (cmp(rows[i]) != Less ==> cmp(rows[j]) != Less) && (cmp(rows[i]) == Greater ==> cmp(rows[j]) == Greater)
  }

  method BinarySearch<T>(rows: seq<T>, cmp: T -> Ordering) returns (found: Option<nat>)
    requires Partitioned(rows, cmp)
    ensures found.Some? ==> found.value < |rows| && cmp(rows[found.value]) == Equal
    ensures found.None? ==> forall row | row in rows :: cmp(row) != Equal
  {
    var low, high := 0, |rows|;
    while low < high
      invariant low <= high <= |rows|
      invariant forall i | 0 <= i < low :: cmp(rows[i]) == Less
      invariant forall i | high <= i < |rows| :: cmp(rows[i]) == Greater
    {
      var mid := low + (high - low) / 2;
      match cmp(rows[mid]) {
        case Equal => return Some(mid);
        case Less => low := mid + 1;
        case Greater => high := mid;
      }
    }
    return None;
  }

  // ---------------------------------------------------------------- metadata

  datatype Database = Database(id: u64, name: string)
  datatype Table = Table(id: u64, databaseId: u64, name: string)
  datatype GlobalIndex = GlobalIndex(id: u64, tableId: u64)
  datatype Tables = Tables(defaultId: u64, databases: seq<Database>, tables: seq<Table>, indexes: seq<GlobalIndex>)

  datatype CatalogError = InvalidArgument

  /** What a loaded catalog satisfies: neighbours are in strict order, the default database exists. */
  predicate Validated(c: Tables) {
    && 0 < |c.databases| <= MAX_LOGICAL_DATABASES && |c.tables| <= MAX_TABLES
    && (forall i | 0 < i < |c.databases| :: c.databases[i - 1].id < c.databases[i].id)
    && (forall i | 0 < i < |c.tables| :: TableBefore(c.tables[i - 1], c.tables[i]))
    && (forall i | 0 < i < |c.indexes| :: c.indexes[i - 1].id < c.indexes[i].id)
    && Database(c.defaultId, DEFAULT_LOGICAL_DATABASE_NAME) in c.databases
  }

  predicate TableBefore(a: Table, b: Table) {
    CompareKeys(a.databaseId, a.name, b.databaseId, b.name) == Less
  }

  lemma TableBeforeTransitive(a: Table, b: Table, c: Table)
    requires TableBefore(a, b) && CompareKeys(b.databaseId, b.name, c.databaseId, c.name) != Greater
    ensures TableBefore(a, c)
  {
    if a.databaseId == b.databaseId == c.databaseId {
      CompareStringsTransitive(a.name, b.name, c.name);
    }
  }

  lemma {:induction false} DatabasesSorted(c: Tables, i: nat, j: nat)
    requires Validated(c) && i < j < |c.databases|
    ensures c.databases[i].id < c.databases[j].id
  {
    if i < j - 1 {
      DatabasesSorted(c, i, j - 1);
    }
  }

  lemma {:induction false} IndexesSorted(c: Tables, i: nat, j: nat)
    requires Validated(c) && i < j < |c.indexes|
    ensures c.indexes[i].id < c.indexes[j].id
  {
    if i < j - 1 {
      IndexesSorted(c, i, j - 1);
    }
  }

  lemma {:induction false} TablesSorted(c: Tables, i: nat, j: nat)
    requires Validated(c) && i < j < |c.tables|
    ensures TableBefore(c.tables[i], c.tables[j])
  {
    if i < j - 1 {
      TablesSorted(c, i, j - 1);
      TableBeforeTransitive(c.tables[i], c.tables[j - 1], c.tables[j]);
    }
  }

  /** By database first, and by name in lexicographic order within one. */
  lemma TablesSortedMeaning(c: Tables, i: nat, j: nat)
    requires Validated(c) && i < j < |c.tables|
    ensures var a, b := c.tables[i], c.tables[j];
            || a.databaseId < b.databaseId
            || (a.databaseId == b.databaseId && exists k: nat :: FirstDifference(a.name, b.name, k))
  {
    TablesSorted(c, i, j);
    CompareStringsMeaning(c.tables[i].name, c.tables[j].name);
  }

  // ---------------------------------------------------------------- identifiers

  predicate IdentifierStart(c: char) {
    'a' <= c <= 'z' || c == '_'
  }

  predicate ValidIdentifier(name: string) {
    && 0 < |name| <= MAX_CATALOG_IDENTIFIER_BYTES
    && IdentifierStart(name[0])
    && (forall c | c in name :: IdentifierStart(c) || '0' <= c <= '9')
    && name != "briskdb" && !("briskdb_" <= name) && !("sqlite_" <= name)
  }

  /**
   The rule position by position: 1 to 63 lower-case letters, digits and underscores, no digit first, and
   neither the engine's own name nor its prefix nor SQLite's.
   */
  lemma IdentifierRule(name: string)
    ensures ValidIdentifier(name)
            <==> && 1 <= |name| <= 63
                 && (forall i | 0 <= i < |name| ::
                       'a' <= name[i] <= 'z' || name[i] == '_' || (i > 0 && '0' <= name[i] <= '9'))
                 && name != "briskdb" && !(|name| >= 8 && name[..8] == "briskdb_")
                 && !(|name| >= 7 && name[..7] == "sqlite_")
  {
    if ValidIdentifier(name) {
      assert forall i | 0 <= i < |name| :: name[i] in name;
    }
  }

  /** The reserved names are refused whatever follows the prefix. */
  lemma ReservedNames(rest: string)
    ensures !ValidIdentifier("briskdb") && !ValidIdentifier("briskdb_" + rest) && !ValidIdentifier("sqlite_" + rest)
  {
    assert "briskdb_" <= "briskdb_" + rest && "sqlite_" <= "sqlite_" + rest;
  }

  // ---------------------------------------------------------------- lookups

  /** The plain scan: the first row that qualifies. */
  function FirstMatch<T>(rows: seq<T>, wanted: T -> bool): Option<T> {
    if rows == [] then None else if wanted(rows[0]) then Some(rows[0]) else FirstMatch(rows[1..], wanted)
  }

  /** The row is at position `k`, qualifies, and none before it does. */
  predicate FirstAt<T(==)>(rows: seq<T>, wanted: T -> bool, row: T, k: nat) {
    k < |rows| && rows[k] == row && wanted(row) && forall i | 0 <= i < k :: !wanted(rows[i])
  }

  /** The scan finds the first row that qualifies, or there is none. */
  lemma {:induction false} FirstMatchMeaning<T>(rows: seq<T>, wanted: T -> bool, row: T)
    ensures FirstMatch(rows, wanted) == Some(row) <==> exists k: nat :: FirstAt(rows, wanted, row, k)
    ensures FirstMatch(rows, wanted) == None <==> forall i | 0 <= i < |rows| :: !wanted(rows[i])
  {
    if rows != [] {
      FirstMatchMeaning(rows[1..], wanted, row);
      if wanted(rows[0]) {
        assert rows[0] == row ==> FirstAt(rows, wanted, row, 0);
      } else {
        if k: nat :| FirstAt(rows[1..], wanted, row, k) {
          assert FirstAt(rows, wanted, row, k + 1);
        }
        if k: nat :| FirstAt(rows, wanted, row, k) {
          assert k > 0 && FirstAt(rows[1..], wanted, row, k - 1);
        }
      }
    }
  }

  lemma {:induction false} FirstMatchUnique<T>(rows: seq<T>, wanted: T -> bool, k: nat)
    requires k < |rows| && wanted(rows[k]) && forall i | 0 <= i < |rows| && wanted(rows[i]) :: i == k
    ensures FirstMatch(rows, wanted) == Some(rows[k])
  {
    if k > 0 {
      assert !wanted(rows[0]);
      FirstMatchUnique(rows[1..], wanted, k - 1);
    }
  }

  lemma {:induction false} FirstMatchNone<T>(rows: seq<T>, wanted: T -> bool)
    requires forall row | row in rows :: !wanted(row)
    ensures FirstMatch(rows, wanted) == None
  {
    if rows != [] {
      FirstMatchNone(rows[1..], wanted);
    }
  }

  method DatabaseById(c: Tables, id: u64) returns (found: Option<Database>)
    requires Validated(c)
    ensures found == FirstMatch(c.databases, (d: Database) => d.id == id)
  {
    forall i, j | 0 <= i < j < |c.databases| ensures c.databases[i].id < c.databases[j].id {
      DatabasesSorted(c, i, j);
    }
    var at := BinarySearch(c.databases, (d: Database) => CompareNumbers(d.id, id));
    if at.None? {
      FirstMatchNone(c.databases, (d: Database) => d.id == id);
      return None;
    }
    FirstMatchUnique(c.databases, (d: Database) => d.id == id, at.value);
    return Some(c.databases[at.value]);
  }

  method GlobalIndexById(c: Tables, id: u64) returns (found: Option<GlobalIndex>)
    requires Validated(c)
    ensures found == FirstMatch(c.indexes, (x: GlobalIndex) => x.id == id)
  {
    forall i, j | 0 <= i < j < |c.indexes| ensures c.indexes[i].id < c.indexes[j].id {
      IndexesSorted(c, i, j);
    }
    var at := BinarySearch(c.indexes, (x: GlobalIndex) => CompareNumbers(x.id, id));
    if at.None? {
      FirstMatchNone(c.indexes, (x: GlobalIndex) => x.id == id);
      return None;
    }
    FirstMatchUnique(c.indexes, (x: GlobalIndex) => x.id == id, at.value);
    return Some(c.indexes[at.value]);
  }

  /** The lookup the engine cannot do without never fails. */
  method DefaultDatabase(c: Tables) returns (d: Database)
    requires Validated(c)
    ensures d == Database(c.defaultId, DEFAULT_LOGICAL_DATABASE_NAME) && d in c.databases
  {
    var found := DatabaseById(c, c.defaultId);
    var k :| 0 <= k < |c.databases| && c.databases[k] == Database(c.defaultId, DEFAULT_LOGICAL_DATABASE_NAME);
    forall i, j | 0 <= i < j < |c.databases| ensures c.databases[i].id < c.databases[j].id {
      DatabasesSorted(c, i, j);
    }
    FirstMatchUnique(c.databases, (d: Database) => d.id == c.defaultId, k);
    return found.value;
  }

  /** Lookup by name: a malformed name is an error whether or not it could match. */
  method DatabaseByName(c: Tables, name: string) returns (r: Result<Option<Database>, CatalogError>)
    ensures r.Err? <==> !ValidIdentifier(name)
    ensures r.Ok? ==> r.value == FirstMatch(c.databases, (d: Database) => d.name == name)
  {
    if !ValidIdentifier(name) {
      return Err(InvalidArgument);
    }
    for i := 0 to |c.databases|
      invariant FirstMatch(c.databases, (d: Database) => d.name == name)
                == FirstMatch(c.databases[i..], (d: Database) => d.name == name)
    {
      if c.databases[i].name == name {
        return Ok(Some(c.databases[i]));
      }
    }
    return Ok(None);
  }

  lemma TablesPartitioned(c: Tables, id: u64, name: string)
    requires Validated(c)
    ensures Partitioned(c.tables, (t: Table) => CompareKeys(t.databaseId, t.name, id, name))
  {
    forall i, j | 0 <= i < j < |c.tables|
      ensures CompareKeys(c.tables[j].databaseId, c.tables[j].name, id, name) != Greater
              ==> CompareKeys(c.tables[i].databaseId, c.tables[i].name, id, name) == Less
    {
      TablesSorted(c, i, j);
      if CompareKeys(c.tables[j].databaseId, c.tables[j].name, id, name) != Greater {
        TableBeforeTransitive(c.tables[i], c.tables[j], Table(0, id, name));
      }
    }
  }

  /**
   The table with the given name in the given database, exactly as a scan would find it. Both names
   are checked even when the database does not exist.
   */
  method TableByName(c: Tables, database: string, table: string) returns (r: Result<Option<Table>, CatalogError>)
    requires Validated(c)
    ensures r.Err? <==> !ValidIdentifier(database) || !ValidIdentifier(table)
    ensures r.Ok? ==>
              var home := FirstMatch(c.databases, (d: Database) => d.name == database);
              r.value == if home.None? then None
                         else FirstMatch(c.tables, (t: Table) => t.databaseId == home.value.id && t.name == table)
  {
    var home :- DatabaseByName(c, database);
    if home.None? {
      return if ValidIdentifier(table) then Ok(None) else Err(InvalidArgument);
    }
    if !ValidIdentifier(table) {
      return Err(InvalidArgument);
    }
    var found := TableIn(c, home.value.id, table);
    return Ok(found);
  }

  method TableIn(c: Tables, id: u64, name: string) returns (found: Option<Table>)
    requires Validated(c)
    ensures found == FirstMatch(c.tables, (t: Table) => t.databaseId == id && t.name == name)
  {
    ghost var wanted := (t: Table) => t.databaseId == id && t.name == name;
    TablesPartitioned(c, id, name);
    var at := BinarySearch(c.tables, (t: Table) => CompareKeys(t.databaseId, t.name, id, name));
    forall t: Table ensures wanted(t) <==> CompareKeys(t.databaseId, t.name, id, name) == Equal {
      CompareStringsEqual(t.name, name);
    }
    if at.None? {
      FirstMatchNone(c.tables, wanted);
      return None;
    }
    forall i | 0 <= i < |c.tables| && wanted(c.tables[i]) ensures i == at.value {
      if i < at.value {
        TablesSorted(c, i, at.value);
      } else if at.value < i {
        TablesSorted(c, at.value, i);
      }
      CompareStringsEqual(name, name);
    }
    FirstMatchUnique(c.tables, wanted, at.value);
    return Some(c.tables[at.value]);
  }
}
