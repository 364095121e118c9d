/**
 The account import: every DDL step, then one transaction that creates the accounts, seeds the runtime
 configuration, raises each account's session version and completes the import marker
 (Apply and importData in internal/accountsmigrate/apply.go, BuildPlan in flow.go).

 Attempts may stop after any statement. Writers are stopped until the import is complete; afterwards the
 application may change anything but the identity of the imported accounts. User names are already folded.
 */
module MigrationImport {
  import opened Common
  import opened MigrationSchema
  import opened MigrationRuns

  const IMPORT := "accounts-config:data:v1"

  datatype SourceUser = SourceUser(id: int, username: string, secret: string, grants: string)

  datatype User = User(username: string, secret: string, grants: string, version: int)

  datatype SourceAlias = SourceAlias(key: string, user: int, kind: string)

  datatype Alias = Alias(user: int, kind: string)

  /** What the plan looks at in the tables the import does not write: their columns, the users their rows refer to
      (None for NULL), the other integrity queries, and the files of ready releases. */
  datatype Legacy = Legacy(tablesOk: bool, owners: set<Option<int>>, rowsOk: bool, filesOk: bool)

  /** `configRows` counts the rows of the three runtime tables; `bumped` lists the accounts whose version was raised. */
  datatype Site = Site(exec: Exec, users: map<int, User>, aliases: map<string, Alias>, configRows: nat, bumped: seq<int>, legacy: Legacy)

  /** What an import brings: accounts, login aliases, the digest binding it to its source, and the runtime rows it seeds. */
  datatype Source = Source(users: seq<SourceUser>, aliases: seq<SourceAlias>, sha: string, seeds: nat)

  function Ids(source: seq<SourceUser>): seq<int> {
    seq(|source|, i requires 0 <= i < |source| => source[i].id)
  }

  // ---------------------------------------------------------------- the plan

  predicate IsImported(db: Db) {
    META in db.tables && IMPORT in db.markers && db.markers[IMPORT].phase == Completed
  }

  predicate Agrees(users: map<int, User>, u: SourceUser, imported: bool) {
    && (forall id | id in users && (id == u.id || users[id].username == u.username) :: id == u.id && users[id].username == u.username)
    && (imported ==> u.id in users)
    && (!imported && u.id in users ==> users[u.id] == User(u.username, u.secret, u.grants, 1))
  }

  predicate AccountsAgree(users: map<int, User>, source: seq<SourceUser>, imported: bool) {
    && (forall i | 0 <= i < |source| :: Agrees(users, source[i], imported))
    && (!imported ==> forall id | id in users :: exists i | 0 <= i < |source| :: source[i].id == id)
  }

  predicate AliasesAgree(aliases: map<string, Alias>, source: seq<SourceAlias>, imported: bool) {
    forall i | 0 <= i < |source| ::
      if source[i].key in aliases then aliases[source[i].key] == Alias(source[i].user, source[i].kind) else !imported
  }

  /** Before the import rows may refer to the source's accounts, afterwards to any account. */
  predicate OwnersKnown(site: Site, source: Source, imported: bool) {
    forall o | o in site.legacy.owners :: o.Some? && if imported then o.value in site.users else o.value in Ids(source.users)
  }

  function AccountsPlanError(site: Site, opts: Options, source: Source): Option<Error> {
    var db, imported := site.exec.db, IsImported(site.exec.db);
    var steps := First(StepPass, db, opts.steps);
    if !site.legacy.tablesOk then Some(LegacyConflict)
    else if steps.Some? then steps
    else if META in db.tables && StepError(db, opts.meta).Some? then StepError(db, opts.meta)
    else if META in db.tables && First(MarkerPass, db, opts.steps).Some? then First(MarkerPass, db, opts.steps)
    else if imported && PendingSteps(db, opts.steps) != [] then Some(MissingStructure)
    else if META in db.tables && IMPORT in db.markers && db.markers[IMPORT].checksum != source.sha then Some(ImportConflict)
    else if !imported && site.configRows != 0 then Some(RuntimeNotEmpty)
    else if "user_account" in db.tables && !AccountsAgree(site.users, source.users, imported) then Some(AccountConflict)
    else if "user_login_alias" in db.tables && !AliasesAgree(site.aliases, source.aliases, imported) then Some(AliasConflict)
    else if !OwnersKnown(site, source, imported) then Some(UnknownOwner)
    else if !site.legacy.rowsOk then Some(LegacyConflict)
    else if !site.legacy.filesOk then Some(FilesConflict)
    else None
  }

  // ---------------------------------------------------------------- the import transaction

  function Inserted(users: map<int, User>, source: seq<SourceUser>): map<int, User> {
    if source == [] then users
    else
      var u, m := source[|source| - 1], Inserted(users, source[..|source| - 1]);
      if u.id in m then m else m[u.id := User(u.username, u.secret, u.grants, 1)]
  }

  /** UPDATE ... SET auth_version=2 WHERE id=? AND auth_version=1 must change one row for each account. */
  function Bumped(users: map<int, User>, source: seq<SourceUser>): Option<map<int, User>> {
    if source == [] then Some(users)
    else
      var id, m := source[|source| - 1].id, Bumped(users, source[..|source| - 1]);
      if m.None? || id !in m.value || m.value[id].version != 1 then None else Some(m.value[id := m.value[id].(version := 2)])
  }

  /** Missing aliases are inserted; one that belongs to another account stops the import. */
  function Aliased(aliases: map<string, Alias>, source: seq<SourceAlias>): Option<map<string, Alias>> {
    if source == [] then Some(aliases)
    else
      var a, m := source[|source| - 1], Aliased(aliases, source[..|source| - 1]);
      if m.None? then None
      else if a.key !in m.value then Some(m.value[a.key := Alias(a.user, a.kind)])
      else if m.value[a.key].user != 0 && m.value[a.key].user != a.user then None
      else m
  }

  /** The committed effect of importData, or its error; an error rolls everything back. */
  function Import(site: Site, source: Source): Result<Site, Error> {
    var db := site.exec.db;
    if IMPORT !in db.markers || db.markers[IMPORT].checksum != source.sha then Err(ImportConflict)
    else if db.markers[IMPORT].phase == Completed then Ok(site)
    else if site.configRows != 0 then Err(RuntimeNotEmpty)
    else
      var aliases := Aliased(site.aliases, source.aliases);
      var users := Bumped(Inserted(site.users, source.users), source.users);
      if aliases.None? then Err(AliasConflict)
      else if users.None? then Err(AccountConflict)
      else
        var done := db.(markers := db.markers[IMPORT := Marker(source.sha, Completed)]);
        Ok(site.(exec := site.exec.(db := done), users := users.value, aliases := aliases.value,
                 configRows := source.seeds, bumped := site.bumped + Ids(source.users)))
  }

  function StepIds(steps: seq<Step>): seq<string> {
    seq(|steps|, i requires 0 <= i < |steps| => steps[i].id)
  }

  function RecordImport(x: Exec, source: Source): (Exec, Option<Error>) {
    if x.left == 0 then (x, Some(Interrupted)) else (x.(db := MarkStarted(x.db, IMPORT, source.sha), left := x.left - 1), None)
  }

  /** The DDL part of Apply: metadata table, every step, and the import marker. */
  function Prepare(server: Server, x: Exec, opts: Options, source: Source): (Exec, Option<Error>) {
    var (ready, metaError) := CreateMeta(server, x, opts.meta);
    if metaError.Some? then (ready, metaError)
    else
      var (end, error) := ApplySteps(server, ready, opts.steps, StepIds(opts.steps));
      if error.Some? then (end, error) else RecordImport(end, source)
  }

  function Commit(site: Site, source: Source): (Site, Option<Error>) {
    var imported := Import(site, source);
    if imported.Err? then (site, Some(imported.error))
    else if site.exec.left == 0 then (site, Some(Interrupted))
    else (imported.value.(exec := imported.value.exec.(left := site.exec.left - 1)), None)
  }

  function Apply(server: Server, site: Site, opts: Options, source: Source): (Site, Option<Error>) {
    var planError := AccountsPlanError(site, opts, source);
    if planError.Some? then (site, planError)
    else if IsImported(site.exec.db) then (site, None)
    else
      var (end, error) := Prepare(server, site.exec, opts, source);
      if error.Some? then (site.(exec := end), error) else Commit(site.(exec := end), source)
  }

  // ---------------------------------------------------------------- the loops of importData

  method InsertAccounts(users: map<int, User>, source: seq<SourceUser>) returns (result: map<int, User>)
    ensures result == Inserted(users, source)
  {
    result := users;
    for i := 0 to |source|
      invariant result == Inserted(users, source[..i])
    {
      ghost var upto := source[..i + 1];
      assert upto[..|upto| - 1] == source[..i] && upto[|upto| - 1] == source[i];
      if source[i].id !in result { result := result[source[i].id := User(source[i].username, source[i].secret, source[i].grants, 1)]; }
    }
    assert source[..|source|] == source;
  }

  method InsertAliases(aliases: map<string, Alias>, source: seq<SourceAlias>) returns (result: Option<map<string, Alias>>)
    ensures result == Aliased(aliases, source)
  {
    var rows := aliases;
    for i := 0 to |source|
      invariant Aliased(aliases, source[..i]) == Some(rows)
    {
      ghost var upto := source[..i + 1];
      assert upto[..|upto| - 1] == source[..i] && upto[|upto| - 1] == source[i];
      var existing := if source[i].key in rows then rows[source[i].key].user else 0;
      if source[i].key !in rows { rows := rows[source[i].key := Alias(source[i].user, source[i].kind)]; }
      if existing != 0 && existing != source[i].user {
        AliasFails(aliases, source, i + 1);
        return None;
      }
    }
    assert source[..|source|] == source;
    return Some(rows);
  }

  lemma {:induction false} AliasFails(aliases: map<string, Alias>, source: seq<SourceAlias>, n: nat)
    requires n <= |source| && Aliased(aliases, source[..n]).None?
    ensures Aliased(aliases, source).None?
    decreases |source|
  {
    if n == |source| {
      assert source[..n] == source;
    } else {
      assert source[..|source| - 1][..n] == source[..n];
      AliasFails(aliases, source[..|source| - 1], n);
    }
  }

  method RaiseVersions(users: map<int, User>, source: seq<SourceUser>) returns (result: Option<map<int, User>>)
    ensures result == Bumped(users, source)
  {
    var rows := users;
    for i := 0 to |source|
      invariant Bumped(users, source[..i]) == Some(rows)
    {
      ghost var upto := source[..i + 1];
      assert upto[..|upto| - 1] == source[..i] && upto[|upto| - 1] == source[i];
      var id := source[i].id;
      if id !in rows || rows[id].version != 1 {
        BumpFails(users, source, i + 1);
        return None;
      }
      rows := rows[id := rows[id].(version := 2)];
    }
    assert source[..|source|] == source;
    return Some(rows);
  }

  lemma {:induction false} BumpFails(users: map<int, User>, source: seq<SourceUser>, n: nat)
    requires n <= |source| && Bumped(users, source[..n]).None?
    ensures Bumped(users, source).None?
    decreases |source|
  {
    if n == |source| {
      assert source[..n] == source;
    } else {
      assert source[..|source| - 1][..n] == source[..n];
      BumpFails(users, source[..|source| - 1], n);
    }
  }

  // ---------------------------------------------------------------- the invariant

  ghost predicate SourceOk(source: Source, opts: Options) {
    && (forall i, j | 0 <= i < j < |source.users| :: source.users[i].id != source.users[j].id && source.users[i].username != source.users[j].username)
    && (forall i, j | 0 <= i < j < |source.aliases| :: source.aliases[i].key != source.aliases[j].key)
    && (forall i | 0 <= i < |opts.steps| :: opts.steps[i].id != IMPORT)
  }

  /** The rows and files the import does not write, and the aliases it does, are as the plan wants them. */
  predicate SurroundingsOk(site: Site, source: Source, imported: bool) {
    && site.legacy.tablesOk && site.legacy.rowsOk && site.legacy.filesOk
    && OwnersKnown(site, source, imported) && AliasesAgree(site.aliases, source.aliases, imported)
  }

  ghost predicate ImportInv(site: Site, opts: Options, source: Source) {
    && Good(site.exec, opts)
    && (IMPORT in site.exec.db.markers ==> META in site.exec.db.tables && site.exec.db.markers[IMPORT].checksum == source.sha)
    && AccountsAgree(site.users, source.users, IsImported(site.exec.db)) && SurroundingsOk(site, source, IsImported(site.exec.db))
    && (if IsImported(site.exec.db)
        then site.bumped == Ids(source.users) && forall i | 0 <= i < |opts.steps| :: Complete(opts.steps[i], Lookup(site.exec.db, opts.steps[i].table))
        else site.bumped == [] && site.configRows == 0)
  }

  lemma AccountsPlanAccepts(site: Site, opts: Options, source: Source)
    requires PlanOk(opts) && ImportInv(site, opts, source)
    ensures AccountsPlanError(site, opts, source).None?
  {
    var db := site.exec.db;
    forall i | 0 <= i < |opts.steps| ensures StepError(db, opts.steps[i]).None? && MarkerError(db, opts.steps[i]).None? {
      assert Whole(db, opts.steps[i]) && MarkerOk(db, opts.steps[i]);
      if Absent(opts.steps[i], Lookup(db, opts.steps[i].table)) { AbsentIsPending(opts.steps[i], Lookup(db, opts.steps[i].table)); }
    }
    FirstNone(StepPass, db, opts.steps);
    FirstNone(MarkerPass, db, opts.steps);
    if IsImported(db) { NoPendingSteps(db, opts.steps); }
  }

  /** The plan is refused exactly when one of its checks fails: every structure fits, every marker is believed, the recorded
      import is this one, a finished import has its structure, an unfinished one finds no runtime rows, and accounts,
      aliases, references and files agree with the source. */
  lemma AccountsPlanDecides(site: Site, opts: Options, source: Source)
    ensures var db, imported := site.exec.db, IsImported(site.exec.db);
      AccountsPlanError(site, opts, source).None? <==>
        && (forall i | 0 <= i < |opts.steps| :: Possible(db, opts.steps[i]))
        && (META in db.tables ==>
              && Possible(db, opts.meta) && (forall i | 0 <= i < |opts.steps| :: Believed(db, opts.steps[i]))
              && (IMPORT in db.markers ==> db.markers[IMPORT].checksum == source.sha))
        && (imported ==> forall i | 0 <= i < |opts.steps| :: Built(db, opts.steps[i]))
        && (!imported ==> site.configRows == 0)
        && ("user_account" in db.tables ==> AccountsAgree(site.users, source.users, imported))
        && ("user_login_alias" in db.tables ==> AliasesAgree(site.aliases, source.aliases, imported))
        && OwnersKnown(site, source, imported) && site.legacy.tablesOk && site.legacy.rowsOk && site.legacy.filesOk
  {
    var db := site.exec.db;
    FirstNone(StepPass, db, opts.steps);
    FirstNone(MarkerPass, db, opts.steps);
    NoPendingSteps(db, opts.steps);
    forall step: Step
      ensures ErrorOf(StepPass, db, step).None? <==> Possible(db, step)
      ensures ErrorOf(MarkerPass, db, step).None? <==> Believed(db, step)
      ensures Complete(step, Lookup(db, step.table)) <==> Built(db, step)
    {
      StepVerdict(db, step);
      BuiltIsComplete(db, step);
    }
    StepVerdict(db, opts.meta);
    hide Possible, Built, Believed, ErrorOf, StepError, First, Complete, PendingSteps, AccountsAgree, AliasesAgree, OwnersKnown;
  }

  /** What agreement with the source means: before the import there are only accounts of the source, each still as it was
      inserted, and afterwards every account of the source under its own name, which nobody else has; an alias may be missing
      only before. */
  lemma AgreementDecides(site: Site, source: Source)
    requires DistinctIds(source.users)
    ensures AccountsAgree(site.users, source.users, false) <==>
      && (forall id | id in site.users :: exists i | 0 <= i < |source.users| :: InsertedAs(site.users, id, source.users[i]))
      && forall i, id | 0 <= i < |source.users| && id in site.users && site.users[id].username == source.users[i].username :: id == source.users[i].id
    ensures AccountsAgree(site.users, source.users, true) <==> forall i | 0 <= i < |source.users| :: OwnsItsName(site.users, source.users[i])
    ensures forall imported :: AliasesAgree(site.aliases, source.aliases, imported) <==> forall i | 0 <= i < |source.aliases| ::
      var a := source.aliases[i];
      if a.key in site.aliases then site.aliases[a.key].user == a.user && site.aliases[a.key].kind == a.kind else !imported
    ensures OwnersKnown(site, source, true) <==> forall o | o in site.legacy.owners :: o.Some? && o.value in site.users
    ensures OwnersKnown(site, source, false) <==>
      forall o | o in site.legacy.owners :: o.Some? && exists i | 0 <= i < |source.users| :: source.users[i].id == o.value
  {
    if AccountsAgree(site.users, source.users, false) {
      forall id | id in site.users ensures exists i | 0 <= i < |source.users| :: InsertedAs(site.users, id, source.users[i]) {
        var i :| 0 <= i < |source.users| && source.users[i].id == id;
        assert Agrees(site.users, source.users[i], false);
        assert InsertedAs(site.users, id, source.users[i]);
      }
    }
    assert forall id :: id in Ids(source.users) <==> exists i | 0 <= i < |source.users| :: source.users[i].id == id by {
      forall i | 0 <= i < |source.users| ensures Ids(source.users)[i] == source.users[i].id { }
    }
  }

  predicate InsertedAs(users: map<int, User>, id: int, u: SourceUser) {
    && id in users && u.id == id && users[id].username == u.username && users[id].secret == u.secret && users[id].grants == u.grants
    && users[id].version == 1
  }

  ghost predicate OwnsItsName(users: map<int, User>, u: SourceUser) {
    u.id in users && forall id :: id in users && users[id].username == u.username <==> id == u.id
  }

  /** A statement on another marker changes nothing the DDL invariant speaks of. */
  lemma OtherMarkerKeepsGood(x: Exec, y: Exec, opts: Options)
    requires Good(x, opts) && y.db.tables == x.db.tables && y.ran == x.ran
    requires forall i | 0 <= i < |opts.steps| :: opts.steps[i].id in y.db.markers <==> opts.steps[i].id in x.db.markers
    requires forall i | 0 <= i < |opts.steps| && opts.steps[i].id in x.db.markers ::
      y.db.markers[opts.steps[i].id] == x.db.markers[opts.steps[i].id]
    ensures Good(y, opts)
  {
    hide VerifyStep, Absent;
    forall i | 0 <= i < |opts.steps| ensures Whole(y.db, opts.steps[i]) && MarkerOk(y.db, opts.steps[i]) {
      assert Whole(x.db, opts.steps[i]) && MarkerOk(x.db, opts.steps[i]);
    }
    SameTables(x, y, opts);
  }

  lemma {:induction false} StepsKeepOtherMarkers(server: Server, x: Exec, steps: seq<Step>, pending: seq<string>, id: string)
    requires forall i | 0 <= i < |steps| :: steps[i].id != id
    ensures var y := ApplySteps(server, x, steps, pending).0;
      (id in y.db.markers <==> id in x.db.markers) && (id in x.db.markers ==> y.db.markers[id] == x.db.markers[id])
  {
    hide VerifyStep, ApplyStep;
    if steps != [] {
      StepsKeepOtherMarkers(server, x, steps[..|steps| - 1], pending, id);
      assert steps[|steps| - 1].id != id;
      StepKeepsOtherMarkers(server, ApplySteps(server, x, steps[..|steps| - 1], pending).0, steps[|steps| - 1], id);
    }
  }

  lemma StepKeepsOtherMarkers(server: Server, x: Exec, step: Step, id: string)
    requires step.id != id
    ensures var y := ApplyStep(server, x, step).0;
      (id in y.db.markers <==> id in x.db.markers) && (id in x.db.markers ==> y.db.markers[id] == x.db.markers[id])
  {
    hide VerifyStep;
  }

  ghost predicate Prepared(db: Db, opts: Options) {
    && META in db.tables && IMPORT in db.markers
    && forall i | 0 <= i < |opts.steps| :: Complete(opts.steps[i], Lookup(db, opts.steps[i].table))
  }

  lemma PrepareKeepsGood(server: Server, x: Exec, opts: Options, source: Source)
    requires HonestServer(server) && PlanOk(opts) && Good(x, opts) && SourceOk(source, opts)
    ensures var (y, error) := Prepare(server, x, opts, source);
      && Good(y, opts) && (error.Some? ==> error.value == Interrupted && x.left < 3 * |opts.steps| + 2)
      && (error.None? ==> y.left + 3 * |opts.steps| + 2 >= x.left && Prepared(y.db, opts))
      && (META in x.db.tables ==> META in y.db.tables)
      && (IMPORT in x.db.markers ==> IMPORT in y.db.markers && y.db.markers[IMPORT] == x.db.markers[IMPORT])
      && (IMPORT in y.db.markers && IMPORT !in x.db.markers ==> error.None? && y.db.markers[IMPORT] == Marker(source.sha, Started))
  {
    hide Inv, Complete, PlanOk, HonestServer, RanOnce, IsMarked, Kept, Good, ApplySteps, CreateMeta;
    MetaIsProgress(server, x, opts);
    var (ready, metaError) := CreateMeta(server, x, opts.meta);
    if metaError.None? {
      forall i | 0 <= i < |opts.steps| ensures opts.steps[i].id in StepIds(opts.steps) {
        assert StepIds(opts.steps)[i] == opts.steps[i].id;
      }
      StepsKeepGood(server, ready, opts, |opts.steps|, StepIds(opts.steps));
      assert opts.steps[..|opts.steps|] == opts.steps;
      StepsKeepOtherMarkers(server, ready, opts.steps, StepIds(opts.steps), IMPORT);
      var (end, error) := ApplySteps(server, ready, opts.steps, StepIds(opts.steps));
      if error.None? { OtherMarkerKeepsGood(end, RecordImport(end, source).0, opts); }
    }
  }

  // ---------------------------------------------------------------- the accounts

  ghost predicate DistinctIds(source: seq<SourceUser>) {
    forall i, j | 0 <= i < j < |source| :: source[i].id != source[j].id
  }

  lemma {:induction false} InsertedOnly(users: map<int, User>, source: seq<SourceUser>, id: int)
    requires forall i | 0 <= i < |source| :: source[i].id != id
    ensures id in Inserted(users, source) <==> id in users
    ensures id in users ==> Inserted(users, source)[id] == users[id]
  {
    if source != [] {
      assert source[|source| - 1].id != id;
      InsertedOnly(users, source[..|source| - 1], id);
    }
  }

  lemma {:induction false} InsertedUser(users: map<int, User>, source: seq<SourceUser>, i: nat)
    requires i < |source| && DistinctIds(source)
    ensures source[i].id in Inserted(users, source)
    ensures Inserted(users, source)[source[i].id] ==
      if source[i].id in users then users[source[i].id] else User(source[i].username, source[i].secret, source[i].grants, 1)
    decreases |source|
  {
    var front := source[..|source| - 1];
    if i < |front| {
      assert front[i] == source[i];
      InsertedUser(users, front, i);
    } else {
      InsertedOnly(users, front, source[i].id);
    }
  }

  /** With distinct accounts all at version 1 the update succeeds and raises every one of them to 2, and no other. */
  lemma {:induction false} BumpedUsers(users: map<int, User>, source: seq<SourceUser>)
    requires DistinctIds(source)
    requires forall i | 0 <= i < |source| :: source[i].id in users && users[source[i].id].version == 1
    ensures Bumped(users, source).Some? && Bumped(users, source).value.Keys == users.Keys
    ensures forall i | 0 <= i < |source| :: Bumped(users, source).value[source[i].id] == users[source[i].id].(version := 2)
    ensures forall id | id in users && (forall i | 0 <= i < |source| :: source[i].id != id) :: Bumped(users, source).value[id] == users[id]
  {
    if source != [] {
      var front, last := source[..|source| - 1], source[|source| - 1];
      assert forall i | 0 <= i < |front| :: front[i] == source[i];
      BumpedUsers(users, front);
      var m := Bumped(users, front).value;
      assert m[last.id] == users[last.id];
      assert Bumped(users, source) == Some(m[last.id := users[last.id].(version := 2)]);
    }
  }

  /** Before the import every account is absent or at version 1 with the source's credentials and grants;
      the transaction leaves exactly the source's accounts, each at version 2. */
  lemma ImportAccounts(users: map<int, User>, source: Source, opts: Options)
    requires SourceOk(source, opts) && AccountsAgree(users, source.users, false)
    ensures var m := Bumped(Inserted(users, source.users), source.users);
      m.Some? && AccountsAgree(m.value, source.users, true)
      && forall i | 0 <= i < |source.users| :: var u := source.users[i];
          u.id in m.value && m.value[u.id] == User(u.username, u.secret, u.grants, 2)
  {
    var rows := Inserted(users, source.users);
    forall i | 0 <= i < |source.users|
      ensures source.users[i].id in rows
      ensures rows[source.users[i].id] == User(source.users[i].username, source.users[i].secret, source.users[i].grants, 1)
    {
      assert Agrees(users, source.users[i], false);
      InsertedUser(users, source.users, i);
    }
    BumpedUsers(rows, source.users);
    forall id | id in rows ensures exists i | 0 <= i < |source.users| :: source.users[i].id == id {
      if forall i | 0 <= i < |source.users| :: source.users[i].id != id { InsertedOnly(users, source.users, id); }
    }
    ExactlyTheSource(Bumped(rows, source.users).value, source, opts);
  }

  lemma ExactlyTheSource(m: map<int, User>, source: Source, opts: Options)
    requires SourceOk(source, opts)
    requires forall id | id in m :: exists i | 0 <= i < |source.users| :: source.users[i].id == id
    requires forall i | 0 <= i < |source.users| :: source.users[i].id in m && m[source.users[i].id].username == source.users[i].username
    ensures AccountsAgree(m, source.users, true)
  {
    forall i, id | 0 <= i < |source.users| && id in m && (id == source.users[i].id || m[id].username == source.users[i].username)
      ensures id == source.users[i].id && m[id].username == source.users[i].username
    {
      var j :| 0 <= j < |source.users| && source.users[j].id == id;
    }
  }

  /** The import leaves every alias of the source with its account, and every other alias as it was. */
  lemma {:induction false} ImportAliases(aliases: map<string, Alias>, source: seq<SourceAlias>)
    requires AliasesAgree(aliases, source, false)
    requires forall i, j | 0 <= i < j < |source| :: source[i].key != source[j].key
    ensures Aliased(aliases, source).Some? && AliasesAgree(Aliased(aliases, source).value, source, true)
    ensures forall key | key in aliases :: key in Aliased(aliases, source).value && Aliased(aliases, source).value[key] == aliases[key]
    ensures forall key | key in Aliased(aliases, source).value && key !in aliases :: exists i | 0 <= i < |source| :: source[i].key == key
  {
    if source != [] {
      var front, last := source[..|source| - 1], source[|source| - 1];
      assert forall i | 0 <= i < |front| :: front[i] == source[i];
      ImportAliases(aliases, front);
    }
  }

  lemma CommitKeepsInv(site: Site, opts: Options, source: Source)
    requires SourceOk(source, opts) && ImportInv(site, opts, source) && !IsImported(site.exec.db)
    requires Prepared(site.exec.db, opts)
    ensures var (after, error) := Commit(site, source);
      && ImportInv(after, opts, source) && (error.Some? ==> error.value == Interrupted && after == site && site.exec.left == 0)
      && (error.None? ==> IsImported(after.exec.db) && ImportedNow(after, source))
  {
    ImportAccounts(site.users, source, opts);
    ImportAliases(site.aliases, source.aliases);
    var after := Commit(site, source).0;
    hide AccountsAgree, Complete, Inserted, Bumped, Aliased, Good, SourceOk;
    if after != site { OtherMarkerKeepsGood(site.exec, after.exec, opts); }
    assert [] + Ids(source.users) == Ids(source.users);
  }

  /** What the import transaction leaves: the runtime rows, every alias, and every account of the source at version 2. */
  ghost predicate ImportedNow(site: Site, source: Source) {
    && site.configRows == source.seeds
    && (forall i | 0 <= i < |source.aliases| ::
          var a := source.aliases[i]; a.key in site.aliases && site.aliases[a.key] == Alias(a.user, a.kind))
    && forall i | 0 <= i < |source.users| ::
      var u := source.users[i]; u.id in site.users && site.users[u.id] == User(u.username, u.secret, u.grants, 2)
  }

  /** An attempt is cut off or ends with the import done; a finished import is never touched again. */
  lemma ApplyKeepsInv(server: Server, site: Site, opts: Options, source: Source)
    requires HonestServer(server) && PlanOk(opts) && SourceOk(source, opts) && ImportInv(site, opts, source)
    ensures var (after, error) := Apply(server, site, opts, source);
      && ImportInv(after, opts, source)
      && (error.Some? ==> error.value == Interrupted && site.exec.left < 3 * |opts.steps| + 3)
      && (error.None? ==> IsImported(after.exec.db))
      && (IsImported(site.exec.db) ==> after == site)
      && (!IsImported(site.exec.db) && IsImported(after.exec.db) ==> ImportedNow(after, source))
      && (!IsImported(after.exec.db) ==> after.users == site.users && after.aliases == site.aliases)
  {
    AccountsPlanAccepts(site, opts, source);
    if !IsImported(site.exec.db) {
      PrepareKeepsGood(server, site.exec, opts, source);
      var (end, error) := Prepare(server, site.exec, opts, source);
      hide Good, AccountsAgree, Complete, Prepare, Import, PlanOk, HonestServer;
      if error.None? { CommitKeepsInv(site.(exec := end), opts, source); }
    }
  }

  // ---------------------------------------------------------------- all attempts, and the application afterwards

  datatype Event =
    | Try(budget: nat)
    | AppWrites(users: map<int, User>, aliases: map<string, Alias>, configRows: nat, legacy: Legacy)

  function Written(site: Site, event: Event): Site
    requires event.AppWrites?
  {
    site.(users := event.users, aliases := event.aliases, configRows := event.configRows, legacy := event.legacy)
  }

  /** The application runs only after the import, and keeps the identities and aliases of the imported accounts, the
      references between rows, and the files of ready releases. */
  predicate Permitted(site: Site, source: Source, event: Event) {
    event.AppWrites? ==>
      && IsImported(site.exec.db) && AccountsAgree(event.users, source.users, true)
      && SurroundingsOk(Written(site, event), source, true)
  }

  function Happen(server: Server, site: Site, opts: Options, source: Source, event: Event): Site {
    match event
    case Try(budget) => Apply(server, site.(exec := site.exec.(left := budget)), opts, source).0
    case AppWrites(_, _, _, _) => Written(site, event)
  }

  ghost predicate IsHistory(server: Server, opts: Options, source: Source, sites: seq<Site>, events: seq<Event>) {
    && |sites| == |events| + 1
    && forall i | 0 <= i < |events| ::
         Permitted(sites[i], source, events[i]) && sites[i + 1] == Happen(server, sites[i], opts, source, events[i])
  }

  /** In every history the import commits at most once: before it no version is raised and no configuration row exists,
      after it every account of the source has been raised exactly once, however many attempts were made. */
  lemma {:induction false} HistoryKeepsInv(server: Server, opts: Options, source: Source, sites: seq<Site>, events: seq<Event>, n: nat)
    requires HonestServer(server) && PlanOk(opts) && SourceOk(source, opts)
    requires IsHistory(server, opts, source, sites, events) && n < |sites| && ImportInv(sites[0], opts, source)
    ensures ImportInv(sites[n], opts, source)
    ensures sites[n].bumped == if IsImported(sites[n].exec.db) then Ids(source.users) else []
    ensures Distinct(sites[n].bumped)
  {
    if n > 0 {
      HistoryKeepsInv(server, opts, source, sites, events, n - 1);
      var site := sites[n - 1];
      EventKeepsInv(server, site, opts, source, events[n - 1]);
    }
    assert Good(sites[n].exec, opts);
  }

  lemma EventKeepsInv(server: Server, site: Site, opts: Options, source: Source, event: Event)
    requires HonestServer(server) && PlanOk(opts) && SourceOk(source, opts)
    requires ImportInv(site, opts, source) && Permitted(site, source, event)
    ensures ImportInv(Happen(server, site, opts, source, event), opts, source)
  {
    if event.Try? {
      var trying := site.(exec := site.exec.(left := event.budget));
      OtherMarkerKeepsGood(site.exec, trying.exec, opts);
      ApplyKeepsInv(server, trying, opts, source);
    }
    hide AccountsAgree, SurroundingsOk, Apply, PlanOk, HonestServer, Good, Complete;
  }
}
