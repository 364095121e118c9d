/**
 Comparing a parsed DDL step with the table it targets (internal/accountsmigrate/database.go), and what the
 step's statement does to that table.

 The server is a function from a step and the table before it to the table after it; `HonestServer` is what
 is assumed of it: a statement takes effect entirely, and INFORMATION_SCHEMA reports what was defined, filling
 in character sets, collations and constraint names that were left open.
 */
module MigrationSchema {
  import opened Common

  datatype Column = Column(name: string, typ: string, nullable: bool, default: Option<string>, charset: string,
                           collation: string, autoIncrement: bool, onUpdate: string)

  datatype Index = Index(name: string, columns: seq<string>, unique: bool)

  datatype Check = Check(name: string, expression: string)

  datatype Step = Step(id: string, checksum: string, table: string, create: bool, columns: seq<Column>,
                       indexes: seq<Index>, checks: seq<Check>)

  datatype Table = Table(engine: string, columns: seq<Column>, indexes: seq<Index>, checks: seq<Check>)

  datatype Error =
    | MissingTable | NotInnoDB | AvatarConflict | UnexpectedStructure | ColumnConflict | IndexConflict | IncompleteTable
    | ChecksumConflict | MissingStructure | UnknownPhase | VerificationFailed | BaseIncomplete | Unfinished
    | ImportConflict | RuntimeNotEmpty | AccountConflict | AliasConflict | LegacyConflict | UnknownOwner | FilesConflict | Interrupted

  // ---------------------------------------------------------------- verifyStep

  function Lower(c: char): char {
    if 'A' <= c <= 'Z' then c - 'A' + 'a' else c
  }

  predicate EqualFold(a: string, b: string) {
    |a| == |b| && forall i | 0 <= i < |a| :: Lower(a[i]) == Lower(b[i])
  }

  const AVATAR := Column("avatar_version", "bigint", false, Some("0"), "", "", false, "")

  /** The first column of the name. */
  function FindColumn(columns: seq<Column>, name: string): (found: Option<Column>)
    ensures found.Some? ==> found.value in columns && found.value.name == name
    ensures found.None? ==> forall c | c in columns :: c.name != name
  {
    if columns == [] then None
    else if columns[0].name == name then Some(columns[0])
    else FindColumn(columns[1..], name)
  }

  /** The published account table may carry one reviewed extra column. */
  predicate MayHaveAvatar(step: Step, table: Table) {
    && step.create && step.id == "20260913_accounts.sql:001" && step.table == "user_account"
    && |table.columns| == |step.columns| + 1
  }

  function ExpectedColumns(step: Step, table: Table): Result<nat, Error> {
    var avatar := FindColumn(table.columns, "avatar_version");
    if !MayHaveAvatar(step, table) || avatar.None? then Ok(|step.columns|)
    else if avatar.value != AVATAR then Err(AvatarConflict)
    else Ok(|step.columns| + 1)
  }

  /** The actual column with the attributes the definition leaves open blanked out. */
  function Masked(expected: Column, actual: Column): Column {
    actual.(charset := if expected.charset == "" then "" else actual.charset,
            collation := if expected.collation == "" then "" else actual.collation)
  }

  predicate SameColumn(create: bool, expected: Column, actual: Column) {
    && !(expected.charset == "" && create && actual.charset != "" && actual.charset != "utf8mb4")
    && Masked(expected, actual) == expected
  }

  predicate ColumnConflicts(create: bool, expected: Column, columns: seq<Column>) {
    var found := FindColumn(columns, expected.name);
    found.Some? && !SameColumn(create, expected, found.value)
  }

  predicate HasIndex(expected: Index, indexes: seq<Index>) {
    exists i | 0 <= i < |indexes| :: indexes[i].name == expected.name
  }

  predicate IndexConflicts(expected: Index, indexes: seq<Index>) {
    exists i | 0 <= i < |indexes| :: indexes[i].name == expected.name && indexes[i] != expected
  }

  predicate SameCheck(expected: Check, actual: Check) {
    (expected.name == "" || expected.name == actual.name) && expected.expression == actual.expression
  }

  predicate HasCheck(expected: Check, checks: seq<Check>) {
    exists i | 0 <= i < |checks| :: SameCheck(expected, checks[i])
  }

  predicate AnyColumnConflict(step: Step, table: Table, n: nat)
    requires n <= |step.columns|
  {
    exists i | 0 <= i < n :: ColumnConflicts(step.create, step.columns[i], table.columns)
  }

  predicate AnyIndexConflict(step: Step, table: Table, n: nat)
    requires n <= |step.indexes|
  {
    exists i | 0 <= i < n :: IndexConflicts(step.indexes[i], table.indexes)
  }

  predicate ColumnsFound(step: Step, table: Table, n: nat)
    requires n <= |step.columns|
  {
    forall i | 0 <= i < n :: FindColumn(table.columns, step.columns[i].name).Some?
  }

  predicate IndexesFound(step: Step, table: Table, n: nat)
    requires n <= |step.indexes|
  {
    forall i | 0 <= i < n :: HasIndex(step.indexes[i], table.indexes)
  }

  predicate ChecksFound(step: Step, table: Table, n: nat)
    requires n <= |step.checks|
  {
    forall i | 0 <= i < n :: HasCheck(step.checks[i], table.checks)
  }

  predicate AllPresent(step: Step, table: Table) {
    ColumnsFound(step, table, |step.columns|) && IndexesFound(step, table, |step.indexes|) && ChecksFound(step, table, |step.checks|)
  }

  predicate SizesMatch(step: Step, table: Table, columns: nat) {
    columns == |table.columns| && |step.indexes| == |table.indexes| && |step.checks| == |table.checks|
  }

  /** Complete, absent, or in conflict. */
  function VerifyStep(step: Step, table: Option<Table>): Result<bool, Error> {
    if table.None? then if step.create then Ok(false) else Err(MissingTable)
    else if !EqualFold(table.value.engine, "InnoDB") then Err(NotInnoDB)
    else
      var expected := ExpectedColumns(step, table.value);
      if expected.Err? then Err(expected.error)
      else if step.create && !SizesMatch(step, table.value, expected.value) then Err(UnexpectedStructure)
      else if AnyColumnConflict(step, table.value, |step.columns|) then Err(ColumnConflict)
      else if AnyIndexConflict(step, table.value, |step.indexes|) then Err(IndexConflict)
      else if step.create && !AllPresent(step, table.value) then Err(IncompleteTable)
      else Ok(AllPresent(step, table.value))
  }

  method FindColumnByName(columns: seq<Column>, name: string) returns (found: Option<Column>)
    ensures found == FindColumn(columns, name)
  {
    for i := 0 to |columns|
      invariant FindColumn(columns, name) == FindColumn(columns[i..], name)
    {
      if columns[i].name == name { return Some(columns[i]); }
    }
    return None;
  }

  method CompareColumn(create: bool, expected: Column, columns: seq<Column>) returns (present: bool, conflict: bool)
    ensures conflict <==> ColumnConflicts(create, expected, columns)
    ensures present <==> FindColumn(columns, expected.name).Some?
  {
    var found := FindColumnByName(columns, expected.name);
    if found.None? { return false, false; }
    var actual := found.value;
    if expected.charset == "" {
      if create && actual.charset != "" && actual.charset != "utf8mb4" { return true, true; }
      actual := actual.(charset := "");
    }
    if expected.collation == "" { actual := actual.(collation := ""); }
    return true, expected != actual;
  }

  method HasMatchingIndex(expected: Index, indexes: seq<Index>) returns (found: bool, conflict: bool)
    ensures conflict <==> IndexConflicts(expected, indexes)
    ensures !conflict ==> (found <==> HasIndex(expected, indexes))
  {
    found := false;
    for i := 0 to |indexes|
      invariant found <==> exists j | 0 <= j < i :: indexes[j].name == expected.name
      invariant forall j | 0 <= j < i :: indexes[j].name == expected.name ==> indexes[j] == expected
    {
      if indexes[i].name == expected.name {
        found := true;
        if indexes[i] != expected { return true, true; }
      }
    }
    conflict := false;
  }

  method VerifyTable(step: Step, table: Option<Table>) returns (r: Result<bool, Error>)
    ensures r == VerifyStep(step, table)
  {
    if table.None? {
      if step.create { return Ok(false); }
      return Err(MissingTable);
    }
    var schema := table.value;
    if !EqualFold(schema.engine, "InnoDB") { return Err(NotInnoDB); }
    var expectedColumns := |step.columns|;
    if MayHaveAvatar(step, schema) {
      var avatar := FindColumnByName(schema.columns, "avatar_version");
      if avatar.Some? {
        if avatar.value != AVATAR { return Err(AvatarConflict); }
        expectedColumns := expectedColumns + 1;
      }
    }
    if step.create && !SizesMatch(step, schema, expectedColumns) { return Err(UnexpectedStructure); }
    var complete := true;
    for i := 0 to |step.columns|
      invariant !AnyColumnConflict(step, schema, i)
      invariant complete <==> ColumnsFound(step, schema, i)
    {
      var found, conflict := CompareColumn(step.create, step.columns[i], schema.columns);
      if conflict { return Err(ColumnConflict); }
      if !found { complete := false; }
    }
    for i := 0 to |step.indexes|
      invariant !AnyIndexConflict(step, schema, i)
      invariant complete <==> ColumnsFound(step, schema, |step.columns|) && IndexesFound(step, schema, i)
    {
      var found, conflict := HasMatchingIndex(step.indexes[i], schema.indexes);
      if conflict { return Err(IndexConflict); }
      if !found { complete := false; }
    }
    for i := 0 to |step.checks|
      invariant complete <==>
        ColumnsFound(step, schema, |step.columns|) && IndexesFound(step, schema, |step.indexes|) && ChecksFound(step, schema, i)
    {
      if !HasCheck(step.checks[i], schema.checks) { complete := false; }
    }
    if step.create && !complete { return Err(IncompleteTable); }
    return Ok(complete);
  }

  // ---------------------------------------------------------------- what the verdict means

  /** The reported column is the defined one, attribute by attribute; what the definition leaves open may be anything,
      but a created table's open character set must be utf8mb4. */
  ghost predicate Fits(create: bool, want: Column, have: Column) {
    && have.name == want.name && have.typ == want.typ && have.nullable == want.nullable && have.default == want.default
    && have.autoIncrement == want.autoIncrement && have.onUpdate == want.onUpdate
    && (if want.charset != "" then have.charset == want.charset else create ==> have.charset == "" || have.charset == "utf8mb4")
    && (want.collation != "" ==> have.collation == want.collation)
  }

  /** Position i holds the table's column of that name. */
  predicate IsColumn(columns: seq<Column>, name: string, i: int) {
    0 <= i < |columns| && columns[i].name == name && forall j | 0 <= j < i :: columns[j].name != name
  }

  ghost predicate HasFitting(create: bool, want: Column, columns: seq<Column>) {
    exists i :: IsColumn(columns, want.name, i) && Fits(create, want, columns[i])
  }

  ghost predicate HasClashing(create: bool, want: Column, columns: seq<Column>) {
    exists i :: IsColumn(columns, want.name, i) && !Fits(create, want, columns[i])
  }

  /** Nothing beyond the definition, save the one reviewed avatar column. */
  ghost predicate NothingElse(step: Step, table: Table) {
    && |table.indexes| == |step.indexes| && |table.checks| == |step.checks|
    && (|table.columns| == |step.columns|
        || (&& step.id == "20260913_accounts.sql:001" && step.table == "user_account" && |table.columns| == |step.columns| + 1
            && exists i :: IsColumn(table.columns, "avatar_version", i)
                 && table.columns[i] == Column("avatar_version", "bigint", false, Some("0"), "", "", false, "")))
  }

  ghost predicate SameNamedIndexesEqual(want: Index, indexes: seq<Index>) {
    forall x | x in indexes && x.name == want.name :: x == want
  }

  ghost predicate NoClash(step: Step, table: Table) {
    && (forall c | c in step.columns :: !HasClashing(step.create, c, table.columns))
    && forall x | x in step.indexes :: SameNamedIndexesEqual(x, table.indexes)
  }

  /** A check of the same expression, and of the same name if the definition names it. */
  ghost predicate HasEqualCheck(want: Check, checks: seq<Check>) {
    exists d :: d in checks && d.expression == want.expression && (want.name == "" || d.name == want.name)
  }

  /** The table has the whole structure of the step, and after a CREATE nothing else. */
  ghost predicate HasStructure(step: Step, table: Table) {
    && (forall c | c in step.columns :: HasFitting(step.create, c, table.columns))
    && (forall x | x in step.indexes :: x in table.indexes && SameNamedIndexesEqual(x, table.indexes))
    && (forall c | c in step.checks :: HasEqualCheck(c, table.checks))
    && (step.create ==> NothingElse(step, table))
  }

  lemma {:induction false} FoundAt(columns: seq<Column>, name: string)
    ensures FindColumn(columns, name).Some? ==> exists i :: IsColumn(columns, name, i) && columns[i] == FindColumn(columns, name).value
    ensures FindColumn(columns, name).None? ==> forall i :: !IsColumn(columns, name, i)
    ensures forall i :: IsColumn(columns, name, i) ==> FindColumn(columns, name) == Some(columns[i])
  {
    if columns != [] && columns[0].name != name {
      FoundAt(columns[1..], name);
      forall i ensures IsColumn(columns, name, i) <==> i > 0 && IsColumn(columns[1..], name, i - 1) {
        if i > 0 && IsColumn(columns[1..], name, i - 1) {
          forall j | 0 <= j < i ensures columns[j].name != name { if j > 0 { assert columns[1..][j - 1].name != name; } }
        }
        if IsColumn(columns, name, i) {
          forall j | 0 <= j < i - 1 ensures columns[1..][j].name != name { assert columns[j + 1].name != name; }
        }
      }
      if FindColumn(columns, name).Some? {
        var i :| IsColumn(columns[1..], name, i) && columns[1..][i] == FindColumn(columns[1..], name).value;
        assert IsColumn(columns, name, i + 1);
      }
    } else if columns != [] {
      assert IsColumn(columns, name, 0);
    }
  }

  lemma SameIsFits(create: bool, want: Column, have: Column)
    ensures have.name == want.name ==> (SameColumn(create, want, have) <==> Fits(create, want, have))
  {
  }

  lemma ColumnVerdict(create: bool, want: Column, columns: seq<Column>)
    ensures ColumnConflicts(create, want, columns) <==> HasClashing(create, want, columns)
    ensures FindColumn(columns, want.name).Some? && !ColumnConflicts(create, want, columns) <==> HasFitting(create, want, columns)
  {
    FoundAt(columns, want.name);
    var found := FindColumn(columns, want.name);
    if found.Some? { SameIsFits(create, want, found.value); }
    hide SameColumn, Fits, IsColumn;
  }

  lemma IndexVerdict(want: Index, indexes: seq<Index>)
    ensures IndexConflicts(want, indexes) <==> !SameNamedIndexesEqual(want, indexes)
    ensures !IndexConflicts(want, indexes) ==> (HasIndex(want, indexes) <==> want in indexes)
  {
    if want in indexes { var i :| 0 <= i < |indexes| && indexes[i] == want; }
  }

  lemma CheckVerdict(want: Check, checks: seq<Check>)
    ensures HasCheck(want, checks) <==> HasEqualCheck(want, checks)
  {
    if HasCheck(want, checks) {
      var i :| 0 <= i < |checks| && SameCheck(want, checks[i]);
      assert checks[i] in checks;
    }
  }

  lemma ColumnsVerdict(step: Step, table: Table)
    ensures AnyColumnConflict(step, table, |step.columns|) <==> exists c :: c in step.columns && HasClashing(step.create, c, table.columns)
    ensures !AnyColumnConflict(step, table, |step.columns|) ==>
      (ColumnsFound(step, table, |step.columns|) <==> forall c | c in step.columns :: HasFitting(step.create, c, table.columns))
  {
    forall c | c in step.columns
      ensures ColumnConflicts(step.create, c, table.columns) <==> HasClashing(step.create, c, table.columns)
      ensures FindColumn(table.columns, c.name).Some? && !ColumnConflicts(step.create, c, table.columns) <==> HasFitting(step.create, c, table.columns)
    {
      ColumnVerdict(step.create, c, table.columns);
    }
    hide ColumnConflicts, HasClashing, HasFitting, FindColumn;
    if c :| c in step.columns && HasClashing(step.create, c, table.columns) {
      var i :| 0 <= i < |step.columns| && step.columns[i] == c;
    }
    forall i | 0 <= i < |step.columns| ensures step.columns[i] in step.columns { }
    forall c | c in step.columns ensures exists i :: 0 <= i < |step.columns| && step.columns[i] == c { }
  }

  lemma IndexesVerdict(step: Step, table: Table)
    ensures AnyIndexConflict(step, table, |step.indexes|) <==> exists x :: x in step.indexes && !SameNamedIndexesEqual(x, table.indexes)
    ensures !AnyIndexConflict(step, table, |step.indexes|) ==>
      (IndexesFound(step, table, |step.indexes|) <==> forall x | x in step.indexes :: x in table.indexes)
  {
    forall x | x in step.indexes
      ensures IndexConflicts(x, table.indexes) <==> !SameNamedIndexesEqual(x, table.indexes)
      ensures !IndexConflicts(x, table.indexes) ==> (HasIndex(x, table.indexes) <==> x in table.indexes)
    {
      IndexVerdict(x, table.indexes);
    }
    hide IndexConflicts, HasIndex, SameNamedIndexesEqual;
    forall i | 0 <= i < |step.indexes| ensures step.indexes[i] in step.indexes { }
    forall x | x in step.indexes ensures exists i :: 0 <= i < |step.indexes| && step.indexes[i] == x { }
  }

  lemma ChecksVerdict(step: Step, table: Table)
    ensures ChecksFound(step, table, |step.checks|) <==> forall c | c in step.checks :: HasEqualCheck(c, table.checks)
  {
    forall c | c in step.checks ensures HasCheck(c, table.checks) <==> HasEqualCheck(c, table.checks) { CheckVerdict(c, table.checks); }
    hide HasCheck, HasEqualCheck;
    forall i | 0 <= i < |step.checks| ensures step.checks[i] in step.checks { }
    forall c | c in step.checks ensures exists i :: 0 <= i < |step.checks| && step.checks[i] == c { }
  }

  lemma SizesVerdict(step: Step, table: Table)
    requires step.create
    ensures NothingElse(step, table) <==>
      ExpectedColumns(step, table).Ok? && SizesMatch(step, table, ExpectedColumns(step, table).value)
  {
    FoundAt(table.columns, "avatar_version");
    hide IsColumn, FindColumn;
  }

  /** Accepted as complete exactly with the whole structure; accepted as absent exactly without a table for a CREATE, or
      with something missing and nothing clashing for an ALTER; a clash is never accepted. */
  lemma VerdictIsExact(step: Step, table: Option<Table>)
    ensures VerifyStep(step, table) == Ok(true) <==>
      table.Some? && EqualFold(table.value.engine, "InnoDB") && HasStructure(step, table.value)
    ensures VerifyStep(step, table) == Ok(false) <==>
      if step.create then table.None?
      else table.Some? && EqualFold(table.value.engine, "InnoDB") && NoClash(step, table.value) && !HasStructure(step, table.value)
    ensures table.Some? && !NoClash(step, table.value) ==> VerifyStep(step, table).Err?
  {
    if table.Some? {
      ColumnsVerdict(step, table.value);
      IndexesVerdict(step, table.value);
      ChecksVerdict(step, table.value);
      if step.create { SizesVerdict(step, table.value); }
      FittingDoesNotClash(step, table.value);
      hide AnyColumnConflict, AnyIndexConflict, ColumnsFound, IndexesFound, ChecksFound, HasEqualCheck, NothingElse, HasFitting, HasClashing, SameNamedIndexesEqual, EqualFold, SizesMatch;
    }
  }

  lemma FittingDoesNotClash(step: Step, table: Table)
    ensures (forall c | c in step.columns :: HasFitting(step.create, c, table.columns)) ==>
      forall c | c in step.columns :: !HasClashing(step.create, c, table.columns)
  {
    forall c | c in step.columns && HasFitting(step.create, c, table.columns) ensures !HasClashing(step.create, c, table.columns) {
      FoundAt(table.columns, c.name);
    }
  }

  // ---------------------------------------------------------------- what a statement does

  /** INFORMATION_SCHEMA reports the definition, filling in what it leaves open; a bigint has no character set. */
  predicate Reports(expected: Column, actual: Column) {
    && Masked(expected, actual) == expected
    && (expected.typ == "bigint" && expected.charset == "" && expected.collation == "" ==> actual == expected)
  }

  ghost predicate Creates(step: Step, after: Table) {
    && EqualFold(after.engine, "InnoDB")
    && SizesMatch(step, after, |step.columns|)
    && (forall i | 0 <= i < |step.columns| ::
          Reports(step.columns[i], after.columns[i]) && SameColumn(true, step.columns[i], after.columns[i]))
    && (forall x :: x in after.indexes <==> x in step.indexes)
    && forall i | 0 <= i < |step.checks| :: HasCheck(step.checks[i], after.checks)
  }

  ghost predicate Alters(step: Step, before: Table, after: Table) {
    && after.engine == before.engine
    && |after.columns| == |before.columns| + |step.columns| && before.columns <= after.columns
    && (forall i | 0 <= i < |step.columns| :: Reports(step.columns[i], after.columns[|before.columns| + i]))
    && |after.indexes| == |before.indexes| + |step.indexes|
    && (forall x :: x in after.indexes <==> x in before.indexes || x in step.indexes)
    && |after.checks| == |before.checks| + |step.checks|
    && (forall x | x in before.checks :: x in after.checks)
    && (forall x | x in after.checks :: x in before.checks || exists c :: c in step.checks && SameCheck(c, x))
    && forall i | 0 <= i < |step.checks| :: HasCheck(step.checks[i], after.checks)
  }

  type Server = (Step, Option<Table>) -> Table

  ghost predicate HonestServer(server: Server) {
    && (forall step: Step | step.create :: Creates(step, server(step, None)))
    && forall step: Step, before | !step.create && Missing(step, before) :: Alters(step, before, server(step, Some(before)))
  }

  /** Nothing the step adds is there yet, so the statement cannot collide. */
  ghost predicate Missing(step: Step, table: Table) {
    && (forall i | 0 <= i < |step.columns| :: FindColumn(table.columns, step.columns[i].name).None?)
    && (forall i | 0 <= i < |step.indexes| :: !HasIndex(step.indexes[i], table.indexes))
    && forall i | 0 <= i < |step.checks| :: !HasCheck(step.checks[i], table.checks)
  }

  /** Every parsed step adds something, and names what it adds only once. */
  ghost predicate WellFormed(step: Step) {
    && (step.columns != [] || step.indexes != [] || step.checks != [])
    && (forall i, j | 0 <= i < j < |step.columns| :: step.columns[i].name != step.columns[j].name)
    && (forall i, j | 0 <= i < j < |step.indexes| :: step.indexes[i].name != step.indexes[j].name)
  }

  ghost predicate Complete(step: Step, table: Option<Table>) {
    VerifyStep(step, table) == Ok(true)
  }

  ghost predicate Absent(step: Step, table: Option<Table>) {
    if step.create then table.None? else table.Some? && EqualFold(table.value.engine, "InnoDB") && Missing(step, table.value)
  }

  lemma AbsentIsPending(step: Step, table: Option<Table>)
    requires WellFormed(step) && Absent(step, table)
    ensures VerifyStep(step, table) == Ok(false)
  {
    if !step.create {
      assert !AnyIndexConflict(step, table.value, |step.indexes|) by {
        forall i | 0 <= i < |step.indexes| ensures !IndexConflicts(step.indexes[i], table.value.indexes) {
          assert !HasIndex(step.indexes[i], table.value.indexes);
        }
      }
      if |step.columns| > 0 { assert FindColumn(table.value.columns, step.columns[0].name).None?; }
      if |step.indexes| > 0 { assert !HasIndex(step.indexes[0], table.value.indexes); }
      if |step.checks| > 0 { assert !HasCheck(step.checks[0], table.value.checks); }
    }
  }

  lemma {:induction false} FindUnique(columns: seq<Column>, k: nat)
    requires k < |columns| && forall i | 0 <= i < k :: columns[i].name != columns[k].name
    ensures FindColumn(columns, columns[k].name) == Some(columns[k])
  {
    if k > 0 { FindUnique(columns[1..], k - 1); }
  }

  lemma {:induction false} FindInPrefix(prefix: seq<Column>, columns: seq<Column>, name: string)
    requires prefix <= columns && FindColumn(prefix, name).Some?
    ensures FindColumn(columns, name) == FindColumn(prefix, name)
  {
    if prefix[0].name != name { FindInPrefix(prefix[1..], columns[1..], name); }
  }

  /** A CREATE statement leaves exactly what its step expects. */
  lemma CreateCompletes(step: Step, after: Table)
    requires step.create && WellFormed(step) && Creates(step, after)
    ensures Complete(step, Some(after))
  {
    forall i | 0 <= i < |step.columns| ensures FindColumn(after.columns, step.columns[i].name) == Some(after.columns[i]) {
      forall j | 0 <= j <= i ensures after.columns[j].name == step.columns[j].name {
        assert Reports(step.columns[j], after.columns[j]);
      }
      FindUnique(after.columns, i);
    }
    forall i | 0 <= i < |step.indexes|
      ensures HasIndex(step.indexes[i], after.indexes) && !IndexConflicts(step.indexes[i], after.indexes)
    {
      IndexArrives(step, after.indexes, i);
    }
  }

  lemma IndexArrives(step: Step, indexes: seq<Index>, i: nat)
    requires WellFormed(step) && i < |step.indexes| && step.indexes[i] in indexes
    requires forall k | 0 <= k < |indexes| && indexes[k].name == step.indexes[i].name :: indexes[k] in step.indexes
    ensures HasIndex(step.indexes[i], indexes) && !IndexConflicts(step.indexes[i], indexes)
  {
    forall k | 0 <= k < |indexes| && indexes[k].name == step.indexes[i].name ensures indexes[k] == step.indexes[i] {
      var j :| 0 <= j < |step.indexes| && step.indexes[j] == indexes[k];
      assert j == i;
    }
  }

  lemma ColumnArrives(step: Step, before: Table, after: Table, i: nat)
    requires !step.create && WellFormed(step) && Absent(step, Some(before)) && Alters(step, before, after) && i < |step.columns|
    ensures |before.columns| + i < |after.columns|
    ensures FindColumn(after.columns, step.columns[i].name) == Some(after.columns[|before.columns| + i])
  {
    hide IndexConflicts, HasIndex, HasCheck, SameCheck, EqualFold, FindColumn, VerifyStep;
    var n := |before.columns|;
    var k := n + i;
    assert Reports(step.columns[i], after.columns[k]);
    forall j | 0 <= j < k ensures after.columns[j].name != after.columns[k].name {
      if j < n {
        assert after.columns[j] == before.columns[j];
        assert FindColumn(before.columns, step.columns[i].name).None?;
      } else {
        assert Reports(step.columns[j - n], after.columns[n + (j - n)]);
      }
    }
    FindUnique(after.columns, k);
  }

  /** An ALTER statement run while its structure is absent completes its step. */
  lemma AlterCompletes(step: Step, before: Table, after: Table)
    requires !step.create && WellFormed(step) && Absent(step, Some(before)) && Alters(step, before, after)
    ensures Complete(step, Some(after))
  {
    var n := |before.columns|;
    forall i | 0 <= i < |step.columns| ensures FindColumn(after.columns, step.columns[i].name) == Some(after.columns[n + i]) {
      ColumnArrives(step, before, after, i);
    }
    forall i | 0 <= i < |step.indexes|
      ensures HasIndex(step.indexes[i], after.indexes) && !IndexConflicts(step.indexes[i], after.indexes)
    {
      assert !HasIndex(step.indexes[i], before.indexes);
      assert step.indexes[i] in after.indexes;
      forall k | 0 <= k < |after.indexes| && after.indexes[k].name == step.indexes[i].name ensures after.indexes[k] in step.indexes {
        assert after.indexes[k] in after.indexes;
      }
      IndexArrives(step, after.indexes, i);
    }
  }

  // ---------------------------------------------------------------- other steps of the same table

  /** Two steps that name nothing in common, and share a table only when both alter it. */
  ghost predicate Separate(a: Step, b: Step) {
    a.table == b.table ==>
      && !a.create && !b.create
      && (forall i, j | 0 <= i < |a.columns| && 0 <= j < |b.columns| :: a.columns[i].name != b.columns[j].name)
      && (forall i, j | 0 <= i < |a.indexes| && 0 <= j < |b.indexes| :: a.indexes[i].name != b.indexes[j].name)
      && (forall i, j | 0 <= i < |a.checks| && 0 <= j < |b.checks| :: a.checks[i].expression != b.checks[j].expression)
  }

  lemma FindAfter(a: Step, before: Table, after: Table, name: string)
    requires Alters(a, before, after) && forall i | 0 <= i < |a.columns| :: a.columns[i].name != name
    ensures FindColumn(after.columns, name) == FindColumn(before.columns, name)
  {
    var n := |before.columns|;
    if FindColumn(before.columns, name).Some? {
      FindInPrefix(before.columns, after.columns, name);
    } else {
      forall k | 0 <= k < |after.columns| ensures after.columns[k].name != name {
        if k < n { assert before.columns[k] in before.columns; } else { assert Reports(a.columns[k - n], after.columns[n + (k - n)]); }
      }
    }
  }

  lemma IndexesAfter(a: Step, before: Table, after: Table, expected: Index)
    requires Alters(a, before, after) && forall i | 0 <= i < |a.indexes| :: a.indexes[i].name != expected.name
    ensures HasIndex(expected, after.indexes) <==> HasIndex(expected, before.indexes)
    ensures IndexConflicts(expected, after.indexes) <==> IndexConflicts(expected, before.indexes)
  {
    forall k | 0 <= k < |after.indexes| && after.indexes[k].name == expected.name ensures after.indexes[k] in before.indexes {
      assert after.indexes[k] in after.indexes;
    }
    forall k | 0 <= k < |before.indexes| ensures before.indexes[k] in after.indexes {
      assert before.indexes[k] in before.indexes;
    }
  }

  lemma ChecksAfter(a: Step, before: Table, after: Table, expected: Check)
    requires Alters(a, before, after)
    ensures HasCheck(expected, before.checks) ==> HasCheck(expected, after.checks)
    ensures (forall i | 0 <= i < |a.checks| :: a.checks[i].expression != expected.expression) && HasCheck(expected, after.checks)
            ==> HasCheck(expected, before.checks)
  {
    if HasCheck(expected, before.checks) {
      var k :| 0 <= k < |before.checks| && SameCheck(expected, before.checks[k]);
      assert before.checks[k] in after.checks;
    }
    if HasCheck(expected, after.checks) && forall i | 0 <= i < |a.checks| :: a.checks[i].expression != expected.expression {
      var k :| 0 <= k < |after.checks| && SameCheck(expected, after.checks[k]);
      assert after.checks[k] in after.checks;
    }
  }

  /** Altering a table leaves every other step on it as complete, or as absent, as it was. */
  lemma AlterKeepsOthers(a: Step, b: Step, before: Table, after: Table)
    requires Alters(a, before, after) && a.table == b.table && Separate(a, b)
    ensures Complete(b, Some(before)) ==> Complete(b, Some(after))
    ensures Absent(b, Some(before)) ==> Absent(b, Some(after))
  {
    forall i | 0 <= i < |b.columns| ensures FindColumn(after.columns, b.columns[i].name) == FindColumn(before.columns, b.columns[i].name) {
      FindAfter(a, before, after, b.columns[i].name);
    }
    forall i | 0 <= i < |b.indexes|
      ensures HasIndex(b.indexes[i], after.indexes) <==> HasIndex(b.indexes[i], before.indexes)
      ensures IndexConflicts(b.indexes[i], after.indexes) <==> IndexConflicts(b.indexes[i], before.indexes)
    {
      IndexesAfter(a, before, after, b.indexes[i]);
    }
    forall i | 0 <= i < |b.checks| ensures HasCheck(b.checks[i], after.checks) <==> HasCheck(b.checks[i], before.checks) {
      ChecksAfter(a, before, after, b.checks[i]);
    }
  }

  /** The one reviewed alteration of the imported account table. */
  ghost predicate AddsAvatar(a: Step, b: Step) {
    && !a.create && a.table == "user_account" && a.columns == [AVATAR] && a.indexes == [] && a.checks == []
    && b.create && b.table == "user_account" && b.id == "20260913_accounts.sql:001"
    && forall i | 0 <= i < |b.columns| :: b.columns[i].name != "avatar_version"
  }

  /** Without the exception for the avatar column the finished account table would be rejected ever after. */
  lemma AvatarKeepsBase(a: Step, b: Step, before: Table, after: Table)
    requires Alters(a, before, after) && Missing(a, before) && AddsAvatar(a, b) && Complete(b, Some(before))
    ensures Complete(b, Some(after))
  {
    var n := |before.columns|;
    assert a.columns[0] == AVATAR;
    assert FindColumn(before.columns, "avatar_version").None?;
    assert Reports(a.columns[0], after.columns[n + 0]);
    forall i | 0 <= i < n ensures after.columns[i].name != "avatar_version" {
      assert after.columns[i] == before.columns[i] && before.columns[i] in before.columns;
    }
    FindUnique(after.columns, n);
    assert ExpectedColumns(b, after) == Ok(|b.columns| + 1);
    forall i | 0 <= i < |b.columns| ensures FindColumn(after.columns, b.columns[i].name) == FindColumn(before.columns, b.columns[i].name) {
      FindAfter(a, before, after, b.columns[i].name);
    }
    forall i | 0 <= i < |b.indexes|
      ensures HasIndex(b.indexes[i], after.indexes) <==> HasIndex(b.indexes[i], before.indexes)
      ensures IndexConflicts(b.indexes[i], after.indexes) <==> IndexConflicts(b.indexes[i], before.indexes)
    {
      IndexesAfter(a, before, after, b.indexes[i]);
    }
    forall i | 0 <= i < |b.checks| ensures HasCheck(b.checks[i], before.checks) ==> HasCheck(b.checks[i], after.checks) {
      ChecksAfter(a, before, after, b.checks[i]);
    }
  }
}
