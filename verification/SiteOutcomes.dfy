/**
 What a publish or rollback is answered, and what it leaves in the tables, in terms of the request and of the history
 rows alone (app/siteconfig/publish.go).
 */
module SiteOutcomes {
  import opened Common
  import opened SiteConfig
  import SplitSql

  /** The values a request asks for: its own, normalised, or those the target revision reads as. */
  ghost predicate AsksFor(validate: Validate, db: Db, q: Request, v: Values) {
    match q.change
    case SetValues(values) => values.Some? && validate(q.ns, values.value) == Some(v)
    case RollbackTo(target) =>
      var rows := Rows(db.history, q.ns);
      1 <= target <= |rows| && CheckedRow(validate, rows[target - 1]) == Some(v)
  }

  /** The fields of a request that are checked before the transaction. */
  predicate WellPosed(q: Request) {
    && q.actor > 0 && q.expected > 0
    && 1 <= |q.id| <= 64 && (forall c | c in q.id :: 'a' <= c <= 'z' || 'A' <= c <= 'Z' || '0' <= c <= '9' || c == '_' || c == '-')
    && 1 <= |SplitSql.Trim(q.reason)| <= 512
  }

  predicate IsReplay(db: Db, q: Request) {
    exists i | 0 <= i < |Rows(db.history, q.ns)| :: Rows(db.history, q.ns)[i].requestId == q.id
  }

  /** A well posed, authorised request on a known namespace. */
  predicate Admissible(names: seq<string>, q: Request) {
    WellPosed(q) && q.ns in names && q.authorized
  }

  /** The revision the request names is the last one, and it asks for different values. */
  ghost predicate Changes(validate: Validate, db: Db, q: Request, v: Values) {
    var rows := Rows(db.history, q.ns);
    AsksFor(validate, db, q, v) && rows != [] && q.expected == |rows| && CheckedRow(validate, rows[|rows| - 1]) != Some(v)
  }

  /** One more revision of the namespace, reading back as v; nothing else changes but the counters. */
  ghost predicate PublishedAs(validate: Validate, db: Db, db': Db, q: Request, v: Values) {
    var rows := Rows(db.history, q.ns);
    && q.ns in db'.current && db'.current == db.current[q.ns := db'.current[q.ns]]
    && |db'.history| == |db.history| + 1 && db'.history[..|db.history|] == db.history
    && var row, h := db'.current[q.ns], db'.history[|db.history|];
    && Checked(validate, q.ns, row.doc) == Some(v) && row.doc.revision == |rows| + 1 && row.updatedBy == q.actor
    && h.ns == q.ns && h.doc == row.doc && h.requestId == q.id && h.actor == q.actor && h.reason == SplitSql.Trim(q.reason)
    && h.rollbackFrom == (if q.change.RollbackTo? then Some(q.change.target) else None)
    && db'.state.generation == db.state.generation + 1 && db'.state.revision == db.state.revision + 1
    && db'.state.epoch == db.state.epoch + if q.ns == "registration" && rows != [] && Closes(CheckedRow(validate, rows[|rows| - 1]), v) then 1 else 0
  }

  predicate Closes(was: Option<Values>, v: Values) {
    was.Some? && "enabled" in was.value && was.value["enabled"] == Flag(true) && "enabled" in v && v["enabled"] == Flag(false)
  }

  /** Under the invariant the document a request resolves to is the one it asks for. */
  lemma CandidateIsAskedFor(validate: Validate, names: seq<string>, db: Db, q: Request)
    requires Inv(validate, names, db) && q.ns in names && Precheck(validate, q).None?
    ensures forall v :: Candidate(validate, db.history, q) == Ok(v) <==> AsksFor(validate, db, q, v)
    ensures q.change.RollbackTo? && q.change.target > |Rows(db.history, q.ns)| ==> Candidate(validate, db.history, q) == Err(NotFound)
    ensures Candidate(validate, db.history, q).Ok? || (q.change.RollbackTo? && q.change.target > |Rows(db.history, q.ns)|)
  {
    assert NamespaceOk(validate, db, q.ns);
    var rows := Rows(db.history, q.ns);
    if q.change.RollbackTo? {
      FindRevisionAt(rows, 1, q.change.target);
      if q.change.target <= |rows| {
        assert rows[q.change.target - 1].ns == q.ns && CheckedRow(validate, rows[q.change.target - 1]).Some?;
      }
    }
    hide Checked;
  }

  predicate Resolvable(validate: Validate, q: Request) {
    if q.change.SetValues? then q.change.values.Some? && validate(q.ns, q.change.values.value).Some? else q.change.target > 0
  }

  lemma PrecheckIs(validate: Validate, q: Request)
    ensures Precheck(validate, q).None? <==> WellPosed(q) && Resolvable(validate, q)
  {
  }

  lemma CurrentIsLast(validate: Validate, names: seq<string>, db: Db, ns: string)
    requires Inv(validate, names, db)
    ensures ns in db.current <==> ns in names
    ensures ns in names ==> var rows := Rows(db.history, ns);
      && rows != [] && db.current[ns].doc.revision == |rows|
      && Checked(validate, ns, db.current[ns].doc) == CheckedRow(validate, rows[|rows| - 1]) && CheckedRow(validate, rows[|rows| - 1]).Some?
  {
    if ns in names {
      assert NamespaceOk(validate, db, ns);
      var rows := Rows(db.history, ns);
      assert rows[|rows| - 1].ns == ns;
    }
    hide Checked, HistoryOk;
  }

  lemma ReplayIs(db: Db, q: Request)
    ensures FindRequest(Rows(db.history, q.ns), q.id).Some? <==> IsReplay(db, q)
  {
    FindRequestFirst(Rows(db.history, q.ns), q.id);
  }

  lemma FindRevisionAtEnd(validate: Validate, names: seq<string>, db: Db, ns: string)
    requires Inv(validate, names, db) && ns in names
    ensures FindRevision(Rows(db.history, ns), |Rows(db.history, ns)| + 1).None?
  {
    assert NamespaceOk(validate, db, ns);
    FindRevisionAt(Rows(db.history, ns), 1, |Rows(db.history, ns)| + 1);
  }

  /** The guards of the transaction as facts about rows, `c` being what the request resolves to. */
  ghost predicate Passes(validate: Validate, names: seq<string>, db: Db, q: Request, c: Result<Values, Error>) {
    var rows := Rows(db.history, q.ns);
    && q.ns in names && q.authorized && c.Ok? && !IsReplay(db, q)
    && rows != [] && q.expected == |rows| && CheckedRow(validate, rows[|rows| - 1]) != Some(c.value)
  }

  lemma WritesWhenPassed(validate: Validate, names: seq<string>, db: Db, q: Request)
    requires Normaliser(validate) && Inv(validate, names, db) && Precheck(validate, q).None?
    ensures Publish(validate, db, q).0 != db <==> Passes(validate, names, db, q, Candidate(validate, db.history, q))
  {
    CurrentIsLast(validate, names, db, q.ns);
    ReplayIs(db, q);
    if q.ns in names { FindRevisionAtEnd(validate, names, db, q.ns); }
    hide Checked, Precheck, Candidate, Normaliser, IsReplay, Rows, FindRequest, FindRevision, HistoryOk, Closings;
  }

  lemma WritesWhen(validate: Validate, names: seq<string>, db: Db, q: Request)
    requires Normaliser(validate) && Inv(validate, names, db)
    ensures Publish(validate, db, q).0 != db <==> Admissible(names, q) && !IsReplay(db, q) && exists v :: Changes(validate, db, q, v)
  {
    hide Checked, WellPosed, Candidate, Normaliser, IsReplay, Rows, Inv, AsksFor, Commit;
    PrecheckIs(validate, q);
    if Precheck(validate, q).None? {
      WritesWhenPassed(validate, names, db, q);
      if q.ns in names {
        CandidateIsAskedFor(validate, names, db, q);
        var c := Candidate(validate, db.history, q);
        if c.Ok? && Passes(validate, names, db, q, c) { assert Changes(validate, db, q, c.value); }
      }
    } else if WellPosed(q) {
      NothingAsked(validate, db, q);
    }
  }

  lemma NothingAsked(validate: Validate, db: Db, q: Request)
    requires !Resolvable(validate, q)
    ensures forall v :: !AsksFor(validate, db, q, v)
  {
  }

  lemma EffectIs(validate: Validate, names: seq<string>, db: Db, q: Request)
    requires Normaliser(validate) && Inv(validate, names, db) && Publish(validate, db, q).0 != db
    ensures var (db', r) := Publish(validate, db, q);
      r.Ok? && forall v | AsksFor(validate, db, q, v) :: PublishedAs(validate, db, db', q, v) && r == Ok(db'.current[q.ns])
  {
    hide *;
    WriteEffect(validate, names, db, q);
    WritesIs(validate, db, q);
    CandidateIsAskedFor(validate, names, db, q);
    CurrentIsLast(validate, names, db, q.ns);
    var (db', r) := Publish(validate, db, q);
    forall v | AsksFor(validate, db, q, v) ensures PublishedAs(validate, db, db', q, v) && r == Ok(db'.current[q.ns]) {
      var was := Checked(validate, q.ns, db.current[q.ns].doc).value;
      RowsAreAsPublished(validate, db, db', q, was, v);
    }
  }

  lemma WritesIs(validate: Validate, db: Db, q: Request)
    ensures Writes(validate, db, q) <==> Publish(validate, db, q).0 != db
  {
    hide Publish;
  }

  lemma RowsAreAsPublished(validate: Validate, db: Db, db': Db, q: Request, was: Values, v: Values)
    requires q.ns in db.current
    requires var rows, prev := Rows(db.history, q.ns), db.current[q.ns].doc;
      && rows != [] && prev.revision == |rows| && CheckedRow(validate, rows[|rows| - 1]) == Some(was)
      && Checked(validate, q.ns, NewStored(prev, v)) == Some(v)
      && db' == Db(db.current[q.ns := CurrentRow(NewStored(prev, v), q.actor)], db.history + [NewHistory(prev, q, v)], NewState(db.state, q.ns, was, v))
    ensures PublishedAs(validate, db, db', q, v)
  {
    hide Rows, Checked, CheckedRow;
  }

  /** A request writes exactly when it is admissible, new, names the last revision and asks for other values; then the
      namespace gets one more revision that reads back as exactly those values. */
  lemma PublishWrites(validate: Validate, names: seq<string>, db: Db, q: Request)
    requires Normaliser(validate) && Inv(validate, names, db)
    ensures var (db', r) := Publish(validate, db, q);
      && (db' != db <==> Admissible(names, q) && !IsReplay(db, q) && exists v :: Changes(validate, db, q, v))
      && (db' != db ==> r.Ok?)
      && forall v | db' != db && AsksFor(validate, db, q, v) ::
           PublishedAs(validate, db, db', q, v) && r == Ok(db'.current[q.ns])
  {
    hide *;
    WritesWhen(validate, names, db, q);
    if Publish(validate, db, q).0 != db { EffectIs(validate, names, db, q); }
  }

  /** Why a request is refused, in the order the code checks; nothing is written then. */
  lemma PublishRefuses(validate: Validate, names: seq<string>, db: Db, q: Request)
    requires Normaliser(validate) && Inv(validate, names, db) && Precheck(validate, q).None?
    ensures var r := Publish(validate, db, q).1; var rows := Rows(db.history, q.ns);
      if q.ns !in names then r == Err(NotFound)
      else if !q.authorized then r == Err(Denied)
      else if q.change.RollbackTo? && q.change.target > |rows| then r == Err(NotFound)
      else if IsReplay(db, q) then r.Ok? || r == Err(Conflict)
      else if q.expected != |rows| then r == Err(Conflict)
      else if AsksFor(validate, db, q, CheckedRow(validate, rows[|rows| - 1]).value) then r == Err(Invalid)
      else r.Ok?
    ensures Publish(validate, db, q).1.Err? ==> Publish(validate, db, q).0 == db
  {
    CurrentIsLast(validate, names, db, q.ns);
    ReplayIs(db, q);
    if q.ns in names {
      CandidateIsAskedFor(validate, names, db, q);
      FindRevisionAtEnd(validate, names, db, q.ns);
    }
    hide Checked, Precheck, Candidate, Normaliser, IsReplay, Rows, FindRequest, FindRevision, HistoryOk, Closings;
  }

  /** A rollback restores the values of its target revision, whatever was published in between. */
  lemma RollbackRestores(validate: Validate, names: seq<string>, db: Db, q: Request)
    requires Normaliser(validate) && Inv(validate, names, db) && q.change.RollbackTo? && Publish(validate, db, q).0 != db
    ensures var db' := Publish(validate, db, q).0; var rows := Rows(db.history, q.ns);
      && 1 <= q.change.target <= |rows| && q.ns in db'.current
      && Checked(validate, q.ns, db'.current[q.ns].doc) == CheckedRow(validate, rows[q.change.target - 1])
      && CheckedRow(validate, rows[q.change.target - 1]).Some?
  {
    PublishWrites(validate, names, db, q);
    var v :| Changes(validate, db, q, v);
    hide Publish, Checked;
  }
}
