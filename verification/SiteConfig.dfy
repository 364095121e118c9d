/**
 Versioned site configuration: publish, rollback and request replay over current rows,
 append-only history and the global runtime state (app/siteconfig/publish.go,
 domain/dal/site_config.go).

 JSON texts and SHA-256 digests are symbolic: a text is the document it encodes or garbage, a
 digest is the text it was taken from, so equal digests mean equal content. ValidateValues is
 a parameter, an idempotent normaliser that only returns complete documents. One transaction
 is one atomic step; timestamps are left out.
 */
module SiteConfig {
  import opened Common
  import SplitSql

  datatype Value = Flag(b: bool) | Number(n: int) | Text(s: string)
  type Values = map<string, Value>

  datatype Json = Doc(values: Values) | Garbage(raw: string)

  datatype RequestDoc = RequestDoc(actor: int, expected: int, reason: string, values: Values, rollbackFrom: Option<int>)

  datatype Digest = OfText(json: Json) | OfRequest(doc: RequestDoc) | OfImport(source: string)

  // The versioned document, as both tables store it.
  datatype Stored = Stored(revision: int, schema: int, json: Json, sha: Digest)

  datatype CurrentRow = CurrentRow(doc: Stored, updatedBy: int)

  datatype HistoryRow = HistoryRow(ns: string, doc: Stored, requestId: string, requestHash: Digest, actor: int, reason: string, rollbackFrom: Option<int>)

  datatype RuntimeState = RuntimeState(generation: int, epoch: int, revision: int)

  datatype Db = Db(current: map<string, CurrentRow>, history: seq<HistoryRow>, state: RuntimeState)

  datatype Change = SetValues(values: Option<Values>) | RollbackTo(target: int)

  // `authorized` is the outcome of the authorization callback inside the transaction.
  datatype Request = Request(ns: string, actor: int, expected: int, id: string, reason: string, change: Change, authorized: bool)

  datatype Error = Invalid | Forbidden | Denied | NotFound | Conflict | Dependency

  // ---------------------------------------------------------------- values

  type Validate = (string, Values) -> Option<Values>

  const FALLBACKS: Values := map["max_active_sessions" := Number(5), "min_share_password_length" := Number(8), "share_code_length" := Number(6)]

  /** What the registry guarantees about ValidateValues. */
  ghost predicate Normaliser(validate: Validate) {
    forall ns, v {:trigger validate(ns, v)} :: validate(ns, v).Some? ==>
      var w := validate(ns, v).value;
      && validate(ns, w) == Some(w)
      && (ns == "account_policy" ==> FALLBACKS.Keys <= w.Keys)
      && (ns == "registration" ==> "enabled" in w && w["enabled"].Flag?)
  }

  /** checkedValues: digest, schema, decoding, additive defaults, validation. */
  function Checked(validate: Validate, ns: string, doc: Stored): Option<Values> {
    if doc.revision < 1 || doc.schema != 1 || doc.sha != OfText(doc.json) || doc.json.Garbage? then None
    else validate(ns, if ns == "account_policy" then FALLBACKS + doc.json.values else doc.json.values)
  }

  predicate Enabled(v: Values) { "enabled" in v && v["enabled"] == Flag(true) }

  predicate Disabled(v: Values) { "enabled" in v && v["enabled"] == Flag(false) }

  // ---------------------------------------------------------------- tables

  /** The history rows of one namespace, oldest first. */
  function Rows(history: seq<HistoryRow>, ns: string): seq<HistoryRow> {
    if history == [] then []
    else
      var last := history[|history| - 1];
      Rows(history[..|history| - 1], ns) + if last.ns == ns then [last] else []
  }

  function FindRequest(rows: seq<HistoryRow>, id: string): Option<HistoryRow> {
    if rows == [] then None
    else if rows[0].requestId == id then Some(rows[0])
    else FindRequest(rows[1..], id)
  }

  function FindRevision(rows: seq<HistoryRow>, revision: int): Option<HistoryRow> {
    if rows == [] then None
    else if rows[0].doc.revision == revision then Some(rows[0])
    else FindRevision(rows[1..], revision)
  }

  /** SaveSiteConfig: history insert under its two unique keys, then both compare-and-swap updates. */
  function Save(db: Db, row: CurrentRow, h: HistoryRow, state: RuntimeState): Option<Db> {
    if FindRequest(Rows(db.history, h.ns), h.requestId).Some? || FindRevision(Rows(db.history, h.ns), h.doc.revision).Some? then None
    else if h.ns !in db.current || db.current[h.ns].doc.revision != row.doc.revision - 1 then None
    else if db.state.revision != state.revision - 1 then None
    else Some(Db(db.current[h.ns := row], db.history + [h], state))
  }

  // ---------------------------------------------------------------- publish

  predicate IdChar(c: char) { 'a' <= c <= 'z' || 'A' <= c <= 'Z' || '0' <= c <= '9' || c == '_' || c == '-' }

  predicate WellFormed(q: Request) {
    var reason := SplitSql.Trim(q.reason);
    && q.expected > 0
    && 1 <= |q.id| <= 64 && (forall c | c in q.id :: IdChar(c))
    && 0 < |reason| <= 512
  }

  /** Errors found before the transaction starts. */
  function Precheck(validate: Validate, q: Request): Option<Error> {
    if q.change.SetValues? && q.change.values.None? then Some(Invalid)
    else if q.change.RollbackTo? && q.change.target <= 0 then Some(Invalid)
    else if q.actor <= 0 then Some(Forbidden)
    else if !WellFormed(q) then Some(Invalid)
    else if q.change.SetValues? && validate(q.ns, q.change.values.value).None? then Some(Invalid)
    else None
  }

  /** The document a request asks for: its own values, or those of the revision it rolls back to. */
  function Candidate(validate: Validate, history: seq<HistoryRow>, q: Request): Result<Values, Error>
    requires Precheck(validate, q).None?
  {
    match q.change
    case SetValues(values) => Ok(validate(q.ns, values.value).value)
    case RollbackTo(target) =>
      match FindRevision(Rows(history, q.ns), target)
      case None => Err(NotFound)
      case Some(h) =>
        match Checked(validate, q.ns, h.doc)
        case None => Err(Dependency)
        case Some(v) => Ok(v)
  }

  function RollbackFrom(q: Request): Option<int> {
    if q.change.RollbackTo? then Some(q.change.target) else None
  }

  /** The content the request hash covers. */
  function RequestDocOf(q: Request, candidate: Values): RequestDoc {
    RequestDoc(q.actor, q.expected, SplitSql.Trim(q.reason), candidate, RollbackFrom(q))
  }

  /** The rows and the state one new publication writes. */
  function NewStored(prev: Stored, candidate: Values): Stored {
    Stored(prev.revision + 1, 1, Doc(candidate), OfText(Doc(candidate)))
  }

  function NewHistory(prev: Stored, q: Request, candidate: Values): HistoryRow {
    HistoryRow(q.ns, NewStored(prev, candidate), q.id, OfRequest(RequestDocOf(q, candidate)), q.actor, SplitSql.Trim(q.reason), RollbackFrom(q))
  }

  function NewState(state: RuntimeState, ns: string, was: Values, candidate: Values): RuntimeState {
    var closes := ns == "registration" && Enabled(was) && Disabled(candidate);
    RuntimeState(state.generation + 1, if closes then state.epoch + 1 else state.epoch, state.revision + 1)
  }

  /** One publish or rollback transaction: the new database and the saved row, or the error. */
  function Publish(validate: Validate, db: Db, q: Request): (Db, Result<CurrentRow, Error>) {
    if Precheck(validate, q).Some? then (db, Err(Precheck(validate, q).value))
    else if q.ns !in db.current then (db, Err(NotFound))
    else
      var prev := db.current[q.ns].doc;
      match Checked(validate, q.ns, prev)
      case None => (db, Err(Dependency))
      case Some(was) =>
        if !q.authorized then (db, Err(Denied))
        else match Candidate(validate, db.history, q)
          case Err(e) => (db, Err(e))
          case Ok(candidate) => Commit(db, q, prev, was, candidate)
  }

  function Commit(db: Db, q: Request, prev: Stored, was: Values, candidate: Values): (Db, Result<CurrentRow, Error>) {
    match FindRequest(Rows(db.history, q.ns), q.id)
    case Some(h) =>
      if h.requestHash != OfRequest(RequestDocOf(q, candidate)) then (db, Err(Conflict))
      else (db, Ok(CurrentRow(h.doc, h.actor)))
    case None =>
      if prev.revision != q.expected then (db, Err(Conflict))
      else if candidate == was then (db, Err(Invalid))
      else
        var row := CurrentRow(NewStored(prev, candidate), q.actor);
        match Save(db, row, NewHistory(prev, q, candidate), NewState(db.state, q.ns, was, candidate))
        case None => (db, Err(Dependency))
        case Some(db') => (db', Ok(row))
  }

  // ---------------------------------------------------------------- invariant

  function CheckedRow(validate: Validate, h: HistoryRow): Option<Values> { Checked(validate, h.ns, h.doc) }

  /** The history of one namespace: revisions 1..n, decodable, unique request ids, neighbours different. */
  ghost predicate HistoryOk(validate: Validate, ns: string, rows: seq<HistoryRow>) {
    && (forall i {:trigger rows[i]} | 0 <= i < |rows| :: rows[i].ns == ns && rows[i].doc.revision == i + 1 && CheckedRow(validate, rows[i]).Some?)
    && (forall i, j {:trigger rows[i], rows[j]} | 0 <= i < j < |rows| :: rows[i].requestId != rows[j].requestId)
    && (forall i, j {:trigger rows[i], rows[j]} | 0 <= i < |rows| && j == i + 1 < |rows| :: CheckedRow(validate, rows[i]) != CheckedRow(validate, rows[j]))
  }

  /** The current row is the newest history row. */
  ghost predicate NamespaceOk(validate: Validate, db: Db, ns: string) {
    var rows := Rows(db.history, ns);
    && HistoryOk(validate, ns, rows) && rows != [] && ns in db.current
    && db.current[ns].doc == rows[|rows| - 1].doc
  }

  /** Enabled-to-disabled changes between neighbouring rows. */
  function Closings(validate: Validate, rows: seq<HistoryRow>): nat {
    if |rows| < 2 then 0
    else
      var a, b := CheckedRow(validate, rows[|rows| - 2]), CheckedRow(validate, rows[|rows| - 1]);
      Closings(validate, rows[..|rows| - 1]) + if a.Some? && b.Some? && Enabled(a.value) && Disabled(b.value) then 1 else 0
  }

  ghost predicate Inv(validate: Validate, names: seq<string>, db: Db) {
    && db.current.Keys == Elements(names)
    && (forall ns | ns in names :: NamespaceOk(validate, db, ns))
    && (forall h | h in db.history :: h.ns in names)
    && db.state.generation == |db.history| - |names| + 1
    && db.state.revision == db.state.generation
    && db.state.epoch == 1 + Closings(validate, Rows(db.history, "registration"))
  }

  // ---------------------------------------------------------------- seed

  const SEED_REQUEST := "accounts-import-v1"

  function SeedStored(doc: Values): Stored { Stored(1, 1, Doc(doc), OfText(Doc(doc))) }

  function SeedRow(ns: string, doc: Values, actor: int, importHash: string): HistoryRow {
    HistoryRow(ns, SeedStored(doc), SEED_REQUEST, OfImport(importHash), actor, "explicit source configuration import", None)
  }

  /** seedRuntime: one revision-1 row per namespace, all counters at one. */
  function Seed(names: seq<string>, docs: map<string, Values>, actor: int, importHash: string): Db
    requires forall ns | ns in names :: ns in docs
  {
    Db(map ns | ns in names :: CurrentRow(SeedStored(docs[ns]), actor),
       seq(|names|, i requires 0 <= i < |names| => SeedRow(names[i], docs[names[i]], actor, importHash)),
       RuntimeState(1, 1, 1))
  }

  /** Seed documents that runtime reads accept. */
  ghost predicate SeedDocs(validate: Validate, names: seq<string>, docs: map<string, Values>) {
    && Distinct(names)
    && forall ns | ns in names :: ns in docs && Checked(validate, ns, SeedStored(docs[ns])).Some?
  }

  lemma RowsSnoc(history: seq<HistoryRow>, h: HistoryRow, ns: string)
    ensures Rows(history + [h], ns) == Rows(history, ns) + if h.ns == ns then [h] else []
  {
    assert (history + [h])[..|history|] == history;
  }

  lemma {:induction false} SeedRows(names: seq<string>, docs: map<string, Values>, actor: int, importHash: string, ns: string)
    requires Distinct(names) && forall m | m in names :: m in docs
    ensures Rows(Seed(names, docs, actor, importHash).history, ns)
      == if ns in names then [SeedRow(ns, docs[ns], actor, importHash)] else []
  {
    if names != [] {
      var front, last := names[..|names| - 1], names[|names| - 1];
      assert names == front + [last] && last !in front;
      SeedRows(front, docs, actor, importHash, ns);
      var before, after := Seed(front, docs, actor, importHash).history, Seed(names, docs, actor, importHash).history;
      assert after == before + [SeedRow(last, docs[last], actor, importHash)];
      RowsSnoc(before, SeedRow(last, docs[last], actor, importHash), ns);
    }
  }

  /** The migration's seed satisfies the invariant. */
  lemma SeedIsValid(validate: Validate, names: seq<string>, docs: map<string, Values>, actor: int, importHash: string)
    requires SeedDocs(validate, names, docs)
    ensures Inv(validate, names, Seed(names, docs, actor, importHash))
  {
    var db := Seed(names, docs, actor, importHash);
    forall ns | ns in names ensures NamespaceOk(validate, db, ns) {
      SeedRows(names, docs, actor, importHash, ns);
    }
    SeedRows(names, docs, actor, importHash, "registration");
    assert db.current.Keys == Elements(names);
    forall h | h in db.history ensures h.ns in names {
      var i :| 0 <= i < |names| && h == db.history[i];
    }
  }

  // ---------------------------------------------------------------- lookups

  lemma {:induction false} FindRevisionAt(rows: seq<HistoryRow>, from: int, target: int)
    requires forall i | 0 <= i < |rows| :: rows[i].doc.revision == from + i
    ensures FindRevision(rows, target)
      == if from <= target < from + |rows| then Some(rows[target - from]) else None
  {
    if rows != [] {
      FindRevisionAt(rows[1..], from + 1, target);
    }
  }

  lemma {:induction false} FindRequestFirst(rows: seq<HistoryRow>, id: string)
    ensures FindRequest(rows, id).None? <==> forall h | h in rows :: h.requestId != id
    ensures FindRequest(rows, id).Some? ==> FindRequest(rows, id).value in rows && FindRequest(rows, id).value.requestId == id
  {
    if rows != [] {
      assert forall h :: h in rows <==> h == rows[0] || h in rows[1..];
      FindRequestFirst(rows[1..], id);
    }
  }

  /** Appending history changes no lookup that already succeeded. */
  lemma {:induction false} LookupsAreStable(rows: seq<HistoryRow>, more: seq<HistoryRow>, id: string, revision: int)
    ensures FindRequest(rows, id).Some? ==> FindRequest(rows + more, id) == FindRequest(rows, id)
    ensures FindRevision(rows, revision).Some? ==> FindRevision(rows + more, revision) == FindRevision(rows, revision)
  {
    if rows != [] {
      assert (rows + more)[1..] == rows[1..] + more;
      LookupsAreStable(rows[1..], more, id, revision);
    }
  }

  // ---------------------------------------------------------------- one transaction

  /** A saved candidate reads back as itself. */
  lemma SavedReadsBack(validate: Validate, ns: string, revision: int, input: Values, candidate: Values)
    requires Normaliser(validate) && validate(ns, input) == Some(candidate) && revision >= 1
    ensures Checked(validate, ns, Stored(revision, 1, Doc(candidate), OfText(Doc(candidate)))) == Some(candidate)
  {
    assert validate(ns, candidate) == Some(candidate);
    if ns == "account_policy" {
      assert FALLBACKS + candidate == candidate;
    }
  }

  lemma CandidateIsNormal(validate: Validate, history: seq<HistoryRow>, q: Request)
    requires Precheck(validate, q).None? && Candidate(validate, history, q).Ok?
    ensures exists input :: validate(q.ns, input) == Some(Candidate(validate, history, q).value)
  {
    match q.change
    case SetValues(values) => assert validate(q.ns, values.value).Some?;
    case RollbackTo(target) =>
      var doc := FindRevision(Rows(history, q.ns), target).value.doc;
      assert Checked(validate, q.ns, doc)
        == validate(q.ns, if q.ns == "account_policy" then FALLBACKS + doc.json.values else doc.json.values);
  }

  /** Whether the request really writes: not a replay, the right revision, different values. */
  predicate Writes(validate: Validate, db: Db, q: Request) {
    Publish(validate, db, q).0 != db
  }

  /** What a writing transaction does to the history, stated once for all later lemmas. */
  lemma WriteEffect(validate: Validate, names: seq<string>, db: Db, q: Request)
    requires Normaliser(validate) && Inv(validate, names, db)
    ensures var (db', r) := Publish(validate, db, q);
      if Writes(validate, db, q) then
        && q.ns in names && r.Ok? && Precheck(validate, q).None?
        && var rows := Rows(db.history, q.ns); var prev := db.current[q.ns].doc;
        && Candidate(validate, db.history, q).Ok? && Checked(validate, q.ns, prev).Some?
        && var was, candidate := Checked(validate, q.ns, prev).value, Candidate(validate, db.history, q).value;
        && prev == rows[|rows| - 1].doc && prev.revision == |rows| == q.expected
        && FindRequest(rows, q.id).None?
        && was != candidate && Checked(validate, q.ns, NewStored(prev, candidate)) == Some(candidate)
        && db' == Db(db.current[q.ns := r.value], db.history + [NewHistory(prev, q, candidate)], NewState(db.state, q.ns, was, candidate))
        && r.value == CurrentRow(NewStored(prev, candidate), q.actor)
      else db' == db
  {
    if Writes(validate, db, q) {
      assert q.ns in names;
      assert NamespaceOk(validate, db, q.ns);
      var rows := Rows(db.history, q.ns);
      FindRevisionAt(rows, 1, |rows| + 1);
      CandidateIsNormal(validate, db.history, q);
      var candidate := Candidate(validate, db.history, q).value;
      var input :| validate(q.ns, input) == Some(candidate);
      SavedReadsBack(validate, q.ns, |rows| + 1, input, candidate);
    }
  }

  /** db' is db with one more revision of ns: its new history row, current row and counters. */
  ghost predicate Appended(validate: Validate, db: Db, db': Db, ns: string, h: HistoryRow) {
    var rows := Rows(db.history, ns);
    && rows != [] && h.ns == ns
    && h.doc.revision == |rows| + 1 && CheckedRow(validate, h).Some?
    && CheckedRow(validate, rows[|rows| - 1]).Some? && CheckedRow(validate, h) != CheckedRow(validate, rows[|rows| - 1])
    && (forall r | r in rows :: r.requestId != h.requestId)
    && db'.history == db.history + [h]
    && db'.current == db.current[ns := CurrentRow(h.doc, h.actor)]
    && db'.state == NewState(db.state, ns, CheckedRow(validate, rows[|rows| - 1]).value, CheckedRow(validate, h).value)
  }

  lemma WriteAppends(validate: Validate, names: seq<string>, db: Db, q: Request)
    requires Normaliser(validate) && Inv(validate, names, db) && Writes(validate, db, q)
    ensures var db' := Publish(validate, db, q).0;
      |db'.history| == |db.history| + 1 && q.ns in names && Appended(validate, db, db', q.ns, db'.history[|db.history|])
  {
    WriteEffect(validate, names, db, q);
    assert NamespaceOk(validate, db, q.ns);
    var rows := Rows(db.history, q.ns);
    hide Publish, Candidate, Precheck, Checked, WellFormed;
    FindRequestFirst(rows, q.id);
    assert rows[|rows| - 1].ns == q.ns;
  }

  lemma HistoryGrows(validate: Validate, ns: string, rows: seq<HistoryRow>, h: HistoryRow)
    requires HistoryOk(validate, ns, rows) && rows != [] && h.ns == ns && h.doc.revision == |rows| + 1
    requires CheckedRow(validate, h).Some? && CheckedRow(validate, h) != CheckedRow(validate, rows[|rows| - 1])
    requires forall r | r in rows :: r.requestId != h.requestId
    ensures HistoryOk(validate, ns, rows + [h])
  {
    hide CheckedRow;
    var rows' := rows + [h];
    forall i | 0 <= i < |rows'| ensures rows'[i].ns == ns && rows'[i].doc.revision == i + 1 && CheckedRow(validate, rows'[i]).Some? {
      if i < |rows| { assert rows'[i] == rows[i]; }
    }
    forall i, j | 0 <= i < j < |rows'| ensures rows'[i].requestId != rows'[j].requestId {
      assert rows'[i] == rows[i];
      if j < |rows| { assert rows'[j] == rows[j]; }
    }
    forall i, j | 0 <= i < |rows'| && j == i + 1 < |rows'| ensures CheckedRow(validate, rows'[i]) != CheckedRow(validate, rows'[j]) {
      assert rows'[i] == rows[i];
      if j < |rows| { assert rows'[j] == rows[j]; }
    }
  }

  lemma AppendKeepsNamespace(validate: Validate, db: Db, db': Db, ns: string, h: HistoryRow, m: string)
    requires Appended(validate, db, db', ns, h) && NamespaceOk(validate, db, m)
    ensures NamespaceOk(validate, db', m)
  {
    RowsSnoc(db.history, h, m);
    if m == ns { HistoryGrows(validate, ns, Rows(db.history, ns), h); }
  }

  /** Every transaction keeps histories gapless, counters exact and the epoch count right. */
  lemma PublishKeepsInv(validate: Validate, names: seq<string>, db: Db, q: Request)
    requires Normaliser(validate) && Inv(validate, names, db)
    ensures Inv(validate, names, Publish(validate, db, q).0)
  {
    hide HistoryOk, Rows, Closings, Publish;
    if Writes(validate, db, q) {
      WriteAppends(validate, names, db, q);
      var db' := Publish(validate, db, q).0;
      hide Writes, NamespaceOk;
      var h := db'.history[|db.history|];
      forall ns | ns in names ensures NamespaceOk(validate, db', ns) {
        AppendKeepsNamespace(validate, db, db', q.ns, h, ns);
      }
      EpochCountsClosings(validate, db, db', q.ns, h);
    }
  }

  lemma EpochCountsClosings(validate: Validate, db: Db, db': Db, ns: string, h: HistoryRow)
    requires Appended(validate, db, db', ns, h)
    requires db.state.epoch == 1 + Closings(validate, Rows(db.history, "registration"))
    ensures db'.state.epoch == 1 + Closings(validate, Rows(db'.history, "registration"))
  {
    var rows := Rows(db.history, "registration");
    RowsSnoc(db.history, h, "registration");
    if ns == "registration" {
      var rows' := rows + [h];
      assert rows'[..|rows'| - 1] == rows && rows'[|rows'| - 2] == rows[|rows| - 1];
    } else {
      assert Rows(db'.history, "registration") == rows;
    }
  }

  // ---------------------------------------------------------------- whole runs

  /** Any sequence of publish and rollback attempts, successful or not. */
  function RunAll(validate: Validate, db: Db, run: seq<Request>): Db
    decreases |run|
  {
    if run == [] then db else RunAll(validate, Publish(validate, db, run[0]).0, run[1..])
  }

  /** History only grows; generation and registration epoch never fall, rollbacks included. */
  predicate Later(a: Db, b: Db) {
    a.history <= b.history && a.state.generation <= b.state.generation && a.state.epoch <= b.state.epoch
  }

  lemma PublishMovesForward(validate: Validate, names: seq<string>, db: Db, q: Request)
    requires Normaliser(validate) && Inv(validate, names, db)
    ensures Later(db, Publish(validate, db, q).0)
  {
    WriteEffect(validate, names, db, q);
  }

  lemma {:induction false} RunKeepsInv(validate: Validate, names: seq<string>, db: Db, run: seq<Request>)
    requires Normaliser(validate) && Inv(validate, names, db)
    ensures var db' := RunAll(validate, db, run); Inv(validate, names, db') && Later(db, db')
    decreases |run|
  {
    hide Inv, Publish, Normaliser;
    if run != [] {
      PublishKeepsInv(validate, names, db, run[0]);
      PublishMovesForward(validate, names, db, run[0]);
      RunKeepsInv(validate, names, Publish(validate, db, run[0]).0, run[1..]);
    }
  }

  lemma {:induction false} RowsExtend(a: seq<HistoryRow>, b: seq<HistoryRow>, ns: string)
    requires a <= b
    ensures Rows(a, ns) <= Rows(b, ns)
  {
    if |a| < |b| {
      RowsExtend(a, b[..|b| - 1], ns);
    } else {
      assert a == b;
    }
  }

  /** Revisions published so far, over all namespaces. */
  function Publications(names: seq<string>, current: map<string, CurrentRow>): int {
    if names == [] then 0
    else
      var ns := names[|names| - 1];
      Publications(names[..|names| - 1], current) + if ns in current then current[ns].doc.revision - 1 else 0
  }

  function Sizes(names: seq<string>, history: seq<HistoryRow>): nat {
    if names == [] then 0 else Sizes(names[..|names| - 1], history) + |Rows(history, names[|names| - 1])|
  }

  lemma {:induction false} SizesSnoc(names: seq<string>, history: seq<HistoryRow>, h: HistoryRow)
    requires Distinct(names)
    ensures Sizes(names, history + [h]) == Sizes(names, history) + if h.ns in names then 1 else 0
  {
    if names != [] {
      var front, ns := names[..|names| - 1], names[|names| - 1];
      assert names == front + [ns] && ns !in front;
      SizesSnoc(front, history, h);
      RowsSnoc(history, h, ns);
    }
  }

  /** Every history row belongs to exactly one namespace. */
  lemma {:induction false} SizesPartition(names: seq<string>, history: seq<HistoryRow>)
    requires Distinct(names) && forall h | h in history :: h.ns in names
    ensures Sizes(names, history) == |history|
  {
    if history == [] {
      NoRows(names);
    } else {
      var front, h := history[..|history| - 1], history[|history| - 1];
      assert history == front + [h];
      SizesPartition(names, front);
      SizesSnoc(names, front, h);
    }
  }

  lemma {:induction false} NoRows(names: seq<string>)
    ensures Sizes(names, []) == 0
  {
    if names != [] { NoRows(names[..|names| - 1]); }
  }

  lemma {:induction false} PublicationsCountRows(validate: Validate, names: seq<string>, db: Db, part: seq<string>)
    requires Inv(validate, names, db) && forall ns | ns in part :: ns in names
    ensures Publications(part, db.current) == Sizes(part, db.history) - |part|
  {
    if part != [] {
      var front, ns := part[..|part| - 1], part[|part| - 1];
      assert part == front + [ns];
      PublicationsCountRows(validate, names, db, front);
      assert ns in part;
      assert NamespaceOk(validate, db, ns);
    }
  }

  /**
   From the seed, over every run: histories are exactly 1..current with different neighbours and
   end at the current row, the generation counts the publications of all namespaces, and the
   registration epoch counts the closings in the registration history.
  */
  lemma CountersFollowHistory(validate: Validate, names: seq<string>, docs: map<string, Values>, actor: int, importHash: string, run: seq<Request>)
    requires Normaliser(validate) && SeedDocs(validate, names, docs)
    ensures var db := RunAll(validate, Seed(names, docs, actor, importHash), run);
      && (forall ns | ns in names ::
            var rows := Rows(db.history, ns);
            && HistoryOk(validate, ns, rows) && rows != [] && ns in db.current
            && |rows| == db.current[ns].doc.revision && db.current[ns].doc == rows[|rows| - 1].doc)
      && db.state.generation - 1 == Publications(names, db.current)
      && db.state.epoch - 1 == Closings(validate, Rows(db.history, "registration"))
  {
    var seed := Seed(names, docs, actor, importHash);
    SeedIsValid(validate, names, docs, actor, importHash);
    RunKeepsInv(validate, names, seed, run);
    var db := RunAll(validate, seed, run);
    hide RunAll, Seed;
    forall ns | ns in names
      ensures var rows := Rows(db.history, ns);
        && HistoryOk(validate, ns, rows) && rows != [] && ns in db.current
        && |rows| == db.current[ns].doc.revision && db.current[ns].doc == rows[|rows| - 1].doc
    {
      assert NamespaceOk(validate, db, ns);
    }
    PublicationsCountRows(validate, names, db, names);
    SizesPartition(names, db.history);
  }

  // ---------------------------------------------------------------- replay

  /** A document found once is found again in every later state. */
  lemma CandidateIsStable(validate: Validate, a: seq<HistoryRow>, b: seq<HistoryRow>, q: Request)
    requires Precheck(validate, q).None? && a <= b && Candidate(validate, a, q).Ok?
    ensures Candidate(validate, b, q) == Candidate(validate, a, q)
  {
    if q.change.RollbackTo? {
      RowsExtend(a, b, q.ns);
      var more := Rows(b, q.ns)[|Rows(a, q.ns)|..];
      assert Rows(b, q.ns) == Rows(a, q.ns) + more;
      LookupsAreStable(Rows(a, q.ns), more, q.id, q.change.target);
    }
  }

  lemma SuccessIsAuthorized(validate: Validate, db: Db, q: Request)
    requires Publish(validate, db, q).1.Ok?
    ensures q.authorized
  {
    hide Precheck, Checked, Candidate, Commit;
  }

  /** After a success the request id names a row holding this request's hash and the returned revision. */
  lemma SuccessIsRecorded(validate: Validate, names: seq<string>, db: Db, q: Request)
    requires Normaliser(validate) && Inv(validate, names, db) && Publish(validate, db, q).1.Ok?
    ensures var (db', r) := Publish(validate, db, q);
      && Precheck(validate, q).None? && q.ns in names && Candidate(validate, db.history, q).Ok?
      && var h := FindRequest(Rows(db'.history, q.ns), q.id);
      && h.Some? && r.value == CurrentRow(h.value.doc, h.value.actor)
      && h.value.requestHash == OfRequest(RequestDocOf(q, Candidate(validate, db.history, q).value))
  {
    WriteEffect(validate, names, db, q);
    if Writes(validate, db, q) {
      var db' := Publish(validate, db, q).0;
      var rows, h := Rows(db.history, q.ns), db'.history[|db.history|];
      RowsSnoc(db.history, h, q.ns);
      FindRequestFirst(rows, q.id);
      FindAppended(rows, h);
    }
  }

  lemma {:induction false} FindAppended(rows: seq<HistoryRow>, h: HistoryRow)
    requires forall r | r in rows :: r.requestId != h.requestId
    ensures FindRequest(rows + [h], h.requestId) == Some(h)
  {
    if rows != [] {
      assert (rows + [h])[1..] == rows[1..] + [h];
      FindAppended(rows[1..], h);
    }
  }

  /** A later state: what some further publish and rollback attempts make of db. */
  ghost predicate ReachedFrom(validate: Validate, db: Db, later: Db) {
    exists run :: RunAll(validate, db, run) == later
  }

  /** A well-formed, authorised request under the id of another one, whose document can be found. */
  predicate Reuses(validate: Validate, db: Db, q: Request, again: Request) {
    && again.ns == q.ns && again.id == q.id && again.authorized
    && Precheck(validate, again).None? && Candidate(validate, db.history, again).Ok?
  }

  /** The same actor, expected revision, reason and kind of change; of a rollback also the same target. */
  predicate SameContent(q: Request, again: Request) {
    && again.actor == q.actor && again.expected == q.expected && SplitSql.Trim(again.reason) == SplitSql.Trim(q.reason)
    && (again.change.RollbackTo? <==> q.change.RollbackTo?)
    && (q.change.RollbackTo? ==> again.change.target == q.change.target)
  }

  /**
   Once a request has succeeded, its id is settled in every later state: the same content
   returns the originally saved row, other content is a conflict, and nothing is written.
   For rollbacks this rests on history immutability, because the hash is recomputed from the
   target revision.
  */
  lemma ReplaySettles(validate: Validate, names: seq<string>, db: Db, q: Request, later: Db, again: Request)
    requires Normaliser(validate) && Inv(validate, names, db) && Publish(validate, db, q).1.Ok?
    requires ReachedFrom(validate, Publish(validate, db, q).0, later) && Reuses(validate, later, q, again)
    ensures Candidate(validate, db.history, q).Ok?
    ensures var same := SameContent(q, again) && Candidate(validate, later.history, again) == Candidate(validate, db.history, q);
      Publish(validate, later, again) == (later, if same then Publish(validate, db, q).1 else Err(Conflict))
  {
    hide Candidate, Precheck, WellFormed, RunAll, Inv, Normaliser, Publish;
    var db1 := Publish(validate, db, q).0;
    var run :| RunAll(validate, db1, run) == later;
    SuccessIsRecorded(validate, names, db, q);
    PublishKeepsInv(validate, names, db, q);
    RunKeepsInv(validate, names, db1, run);
    RowsExtend(db1.history, later.history, q.ns);
    var more := Rows(later.history, q.ns)[|Rows(db1.history, q.ns)|..];
    assert Rows(later.history, q.ns) == Rows(db1.history, q.ns) + more;
    LookupsAreStable(Rows(db1.history, q.ns), more, q.id, 0);
    KnownIdDecides(validate, names, later, again);
  }

  /** With the id on record, the transaction only compares content. */
  lemma KnownIdDecides(validate: Validate, names: seq<string>, db: Db, q: Request)
    requires Inv(validate, names, db) && q.ns in names && q.authorized && Precheck(validate, q).None?
    requires Candidate(validate, db.history, q).Ok? && FindRequest(Rows(db.history, q.ns), q.id).Some?
    ensures var h := FindRequest(Rows(db.history, q.ns), q.id).value;
      Publish(validate, db, q) == (db,
        if h.requestHash == OfRequest(RequestDocOf(q, Candidate(validate, db.history, q).value))
        then Ok(CurrentRow(h.doc, h.actor)) else Err(Conflict))
  {
    assert NamespaceOk(validate, db, q.ns);
    var rows := Rows(db.history, q.ns);
    assert CheckedRow(validate, rows[|rows| - 1]).Some? && rows[|rows| - 1].ns == q.ns;
    hide Candidate, Precheck, WellFormed, Checked;
  }

  /** Sending exactly the same request again, at any later time, returns the saved row and changes nothing. */
  lemma ReplayIsHarmless(validate: Validate, names: seq<string>, db: Db, q: Request, later: Db)
    requires Normaliser(validate) && Inv(validate, names, db) && Publish(validate, db, q).1.Ok?
    requires ReachedFrom(validate, Publish(validate, db, q).0, later)
    ensures Publish(validate, later, q) == (later, Publish(validate, db, q).1)
  {
    hide Candidate, Precheck, WellFormed, RunAll, Inv, Publish, Normaliser, Checked;
    var db1 := Publish(validate, db, q).0;
    var run :| RunAll(validate, db1, run) == later;
    SuccessIsRecorded(validate, names, db, q);
    PublishKeepsInv(validate, names, db, q);
    WriteEffect(validate, names, db, q);
    RunKeepsInv(validate, names, db1, run);
    CandidateIsStable(validate, db.history, later.history, q);
    SuccessIsAuthorized(validate, db, q);
    ReplaySettles(validate, names, db, q, later, q);
  }
}
