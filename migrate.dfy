/**
 * The Migrator and the state it works against: the migration directory,
 * the database with its `migrations` history table, and the per-file
 * transactions that Up opens.
 */
module Migrate {
  import opened GoStrings
  import opened MigrateSpec

  /** The migration directory: file name to contents. */
  class Directory {
    var files: map<string, string>
    /** Names the platform refuses to create (permissions, missing directory). */
    const readOnly: set<string>

    constructor (files: map<string, string>, readOnly: set<string>)
      ensures this.files == files && this.readOnly == readOnly
    {
      this.files := files;
      this.readOnly := readOnly;
    }

    /** os.Create: creates the file empty, truncating an existing one. */
    method Create(name: string) returns (ok: bool)
      modifies this
      ensures ok == (name !in readOnly)
      ensures files == if ok then old(files)[name := ""] else old(files)
    {
      ok := name !in readOnly;
      if ok {
        files := files[name := ""];
      }
    }

    /** f.WriteString: appends `text` to an open file. */
    method WriteString(name: string, text: string)
      requires name in files
      modifies this
      ensures files == old(files)[name := old(files)[name] + text]
    {
      files := files[name := files[name] + text];
    }
  }

  /**
   * The database: the rows of the `migrations` table in id order, the
   * migration scripts committed so far (the schema's history), and how the
   * server answers a transaction that runs a given script.
   */
  class Database {
    var rows: seq<Record>
    var schema: seq<string>
    const answer: string -> Verdict

    constructor (rows: seq<Record>, schema: seq<string>, answer: string -> Verdict)
      ensures this.rows == rows && this.schema == schema && this.answer == answer
    {
      this.rows := rows;
      this.schema := schema;
      this.answer := answer;
    }
  }

  /**
   * One transaction: the statements it executed and the rows it inserted,
   * none of which the database sees until Commit.
   */
  class Tx {
    const db: Database
    var statements: seq<string>
    var inserts: seq<Record>

    /** db.Begin() */
    constructor Begin(db: Database)
      ensures this.db == db && statements == [] && inserts == []
    {
      this.db := db;
      statements := [];
      inserts := [];
    }

    /** The answer the database gives this transaction, settled by the script it ran first. */
    function Answer(): Verdict
      reads this
    {
      if statements == [] then Accept else db.answer(statements[0])
    }

    /** tx.Exec(sql) */
    method Exec(sql: string) returns (ok: bool)
      modifies this
      ensures ok == (db.answer(sql) != RejectExec)
      ensures statements == if ok then old(statements) + [sql] else old(statements)
      ensures inserts == old(inserts)
    {
      ok := db.answer(sql) != RejectExec;
      if ok {
        statements := statements + [sql];
      }
    }

    /** tx.Exec("INSERT INTO migrations VALUES (null, ?, ?)", ...) */
    method Insert(r: Record) returns (ok: bool)
      modifies this
      ensures ok == (old(Answer()) != RejectInsert)
      ensures inserts == if ok then old(inserts) + [r] else old(inserts)
      ensures statements == old(statements)
    {
      ok := Answer() != RejectInsert;
      if ok {
        inserts := inserts + [r];
      }
    }

    /** tx.Commit(): everything the transaction did reaches the database at once, or nothing does. */
    method Commit() returns (ok: bool)
      modifies db
      ensures ok == (Answer() != RejectCommit)
      ensures ok ==> db.rows == old(db.rows) + inserts && db.schema == old(db.schema) + statements
      ensures !ok ==> db.rows == old(db.rows) && db.schema == old(db.schema)
    {
      ok := Answer() != RejectCommit;
      if ok {
        db.rows := db.rows + inserts;
        db.schema := db.schema + statements;
      }
    }

    /** tx.Rollback(): the transaction's work is discarded; the database is untouched. */
    method Rollback()
      modifies this
      ensures statements == [] && inserts == []
    {
      statements := [];
      inserts := [];
    }
  }

  /** Up's "except migrations" step, filtering into a new sequence. */
  method Except(ms: seq<string>, rs: seq<string>) returns (pending: seq<string>)
    ensures pending == Pending(ms, rs)
  {
    pending := [];
    var k := 0;
    while k < |ms|
      invariant 0 <= k <= |ms|
      invariant pending == Pending(ms[..k], rs)
    {
      var tmp := ms[k];
      var recorded := false;
      var j := 0;
      while j < |rs|
        invariant 0 <= j <= |rs|
        invariant recorded <==> exists i :: 0 <= i < j && tmp == rs[i] + UpSuffix
      {
        if tmp == rs[j] + UpSuffix {
          recorded := true;
        }
        j := j + 1;
      }
      assert recorded <==> Recorded(tmp, rs) by {
        if Recorded(tmp, rs) {
          var r :| r in rs && tmp == r + UpSuffix;
          var i :| 0 <= i < |rs| && rs[i] == r;
        }
      }
      if !recorded {
        pending := pending + [tmp];
      }
      assert [tmp][1..] == [];
      PendingAppend(ms[..k], [tmp], rs);
      assert ms[..k + 1] == ms[..k] + [tmp];
      k := k + 1;
    }
    assert ms[..|ms|] == ms;
  }

  /** The migration engine bound to one directory and one database. */
  class Migrator {
    const db: Database
    const dir: Directory
    /** The creation timestamp (`YYYYMMDDhhmmss`), fixed for the Migrator's lifetime. */
    const ts: string
    var tableName: string
    var upName: string
    var downName: string
    var tp: int

    /** New, with the clock's reading passed in as `ts`. */
    constructor New(db: Database, dir: Directory, ts: string)
      ensures this.db == db && this.dir == dir && this.ts == ts
      ensures tableName == "" && upName == "" && downName == "" && tp == 0
    {
      this.db := db;
      this.dir := dir;
      this.ts := ts;
      tableName, upName, downName, tp := "", "", "", 0;
    }

    /** Both file names are set: the check Create, Up and Down start with. */
    predicate NamesSet()
      reads this
    {
      upName != "" && downName != ""
    }

    /** Derives both file names, the template kind and the table name from `name`. */
    method SetName(name: string) returns (out: Outcome)
      modifies this
      ensures out == Ok && NamesSet()
      ensures upName == UpFileName(ts, name) && downName == DownFileName(ts, name)
      ensures tableName == TableOf(name) && tp == KindOf(name, old(tp))
    {
      tableName := name;
      upName := ts + "_" + name + ".up.sql";
      downName := ts + "_" + name + ".down.sql";
      var s := Split(name, '_');
      if TableShaped(name) {
        if s[0] == "create" {
          tp := CreateType;
        } else if s[0] == "alter" {
          tp := AlterType;
        }
        tableName := s[1];
      }
      FileNamesDistinct(ts, name);
      out := Ok;
    }

    /** Writes the up and down skeleton files. */
    method Create() returns (out: Outcome)
      modifies dir
      ensures !NamesSet() ==> out == Fail(NameRequired) && dir.files == old(dir.files)
      ensures NamesSet() && upName in dir.readOnly ==>
                out == Fail(CreateFailed(upName)) && dir.files == old(dir.files)
      ensures NamesSet() && upName !in dir.readOnly && downName in dir.readOnly ==>
                && out == Fail(CreateFailed(downName))
                && dir.files == old(dir.files)[upName := GetSQL(tp, tableName, "up")]
      ensures NamesSet() && upName !in dir.readOnly && downName !in dir.readOnly ==>
                && out == Ok
                && dir.files == old(dir.files)[upName := GetSQL(tp, tableName, "up")]
                                              [downName := GetSQL(tp, tableName, "down")]
    {
      if upName == "" || downName == "" {
        return Fail(NameRequired);
      }
      out := CreateFile("up");
      if out.Fail? {
        return;
      }
      out := CreateFile("down");
    }

    /**
     * createFile: creates (or truncates) the file of direction `t` and
     * writes its skeleton, writing nothing when the skeleton is empty.
     */
    method CreateFile(t: string) returns (out: Outcome)
      modifies dir
      ensures var name := if t == "down" then downName else upName;
              if name in dir.readOnly then out == Fail(CreateFailed(name)) && dir.files == old(dir.files)
              else out == Ok && dir.files == old(dir.files)[name := GetSQL(tp, tableName, t)]
    {
      var name := upName;
      if t == "down" {
        name := downName;
      }
      var ok := dir.Create(name);
      if !ok {
        return Fail(CreateFailed(name));
      }
      var sql := GetSQL(tp, tableName, t);
      if sql == "" {
        return Ok;
      }
      dir.WriteString(name, sql);
      assert "" + sql == sql;
      out := Ok;
    }

    /**
     * getMigrationRecords as written, for a query selecting `columns`: the
     * rows come newest first, each is scanned into two variables, and the
     * result's batch is `batches[0]`. A scan fails when the column count is
     * not two; indexing the empty `batches` panics.
     */
    method ReadRecordsAsWritten(columns: seq<string>) returns (r: ReadResult)
      ensures db.rows == [] ==> r == IndexPanic
      ensures db.rows != [] && !ScanAccepts(columns, ScanDestinations) ==> r == ScanFailed
      ensures db.rows != [] && ScanAccepts(columns, ScanDestinations) ==>
                && r.Records?
                && |r.keys| == |db.rows|
                && (forall i :: 0 <= i < |r.keys| ==> r.keys[i] == db.rows[|db.rows| - 1 - i].migration)
                && r.latest == LatestBatch(db.rows)
      ensures columns == QueryColumns ==> !r.Records?
    {
      var rows := db.rows;
      var res: seq<string> := [];
      var batches: seq<nat> := [];
      var n := |rows|;
      while n > 0
        invariant 0 <= n <= |rows|
        invariant |res| == |batches| == |rows| - n
        invariant n < |rows| ==> ScanAccepts(columns, ScanDestinations)
        invariant forall i :: 0 <= i < |res| ==>
                    res[i] == rows[|rows| - 1 - i].migration && batches[i] == rows[|rows| - 1 - i].batch
      {
        n := n - 1;
        if !ScanAccepts(columns, ScanDestinations) {
          return ScanFailed;
        }
        res := res + [rows[n].migration];
        batches := batches + [rows[n].batch];
      }
      if batches == [] {
        return IndexPanic;
      }
      r := Records(res, batches[0]);
    }

    /**
     * getMigrationRecords corrected: the same row loop over a query that
     * selects both scanned columns, giving the keys newest first (the query
     * orders by id descending) and the newest row's batch, with 0 instead
     * of the index panic when the table is empty.
     */
    method ReadRecords() returns (keys: seq<string>, latest: nat)
      ensures |keys| == |db.rows|
      ensures forall i :: 0 <= i < |keys| ==> keys[i] == db.rows[|db.rows| - 1 - i].migration
      ensures latest == LatestBatch(db.rows)
    {
      var r := ReadRecordsAsWritten(["migration", "batch"]);
      if r.Records? {
        keys, latest := r.keys, r.latest;
      } else {
        keys, latest := [], 0;
      }
    }

    /**
     * Applies the pending migrations found in `listing` (the glob result,
     * in its order), each in its own transaction, all under one new batch.
     */
    method Up(listing: seq<string>) returns (out: Outcome)
      modifies db
      ensures !NamesSet() ==> out == Fail(NameRequired) && db.rows == old(db.rows) && db.schema == old(db.schema)
      ensures NamesSet() ==>
                Applied(out, db.rows, db.schema) == UpSpec(old(db.rows), old(db.schema), dir.files, db.answer, listing)
    {
      if upName == "" || downName == "" {
        return Fail(NameRequired);
      }
      var ms := listing;
      var rs, b := ReadRecords();
      var pending := Except(ms, rs);
      NewestFirstSameKeys(rs, db.rows);
      PendingSameKeys(ms, rs, Migrations(db.rows));
      if |pending| == 0 {
        return Ok;
      }
      out := ApplyPending(pending, b + 1);
    }

    /** Up's apply loop: the pending files in order, stopping at the first failure. */
    method ApplyPending(pending: seq<string>, batch: nat) returns (out: Outcome)
      modifies db
      ensures Applied(out, db.rows, db.schema)
           == ApplyAll(dir.files, db.answer, pending, batch, old(db.rows), old(db.schema))
    {
      var i := 0;
      while i < |pending|
        invariant 0 <= i <= |pending|
        invariant ApplyAll(dir.files, db.answer, pending[i..], batch, db.rows, db.schema)
               == ApplyAll(dir.files, db.answer, pending, batch, old(db.rows), old(db.schema))
      {
        ApplyAllStep(dir.files, db.answer, pending[i..], batch, db.rows, db.schema);
        out := ApplyFile(pending[i], batch);
        if out.Fail? {
          return;
        }
        assert pending[i..][1..] == pending[i + 1..];
        i := i + 1;
      }
      out := Ok;
    }

    /**
     * One turn of Up's apply loop: read the file, then in one transaction
     * run its script, insert its record under `batch` and commit; a failing
     * step rolls the transaction back.
     */
    method ApplyFile(name: string, batch: nat) returns (out: Outcome)
      modifies db
      ensures Commits(dir.files, db.answer, name) ==>
                && out == Ok
                && db.rows == old(db.rows) + [Record(Key(name), batch)]
                && db.schema == old(db.schema) + [dir.files[name]]
      ensures !Commits(dir.files, db.answer, name) ==>
                && out == Fail(FailureOf(dir.files, db.answer, name))
                && db.rows == old(db.rows) && db.schema == old(db.schema)
    {
      if name !in dir.files {
        return Fail(ReadFailed(name));
      }
      var sql := dir.files[name];
      var tx := new Tx.Begin(db);
      var ok := tx.Exec(sql);
      if !ok {
        tx.Rollback();
        return Fail(ExecFailed(name));
      }
      var key := Key(name);
      ok := tx.Insert(Record(key, batch));
      if !ok {
        tx.Rollback();
        return Fail(InsertFailed(key));
      }
      ok := tx.Commit();
      if !ok {
        tx.Rollback();
        return Fail(CommitFailed(key));
      }
      out := Ok;
    }

    /** Down as the source has it: the name check and nothing else. */
    method Down() returns (out: Outcome)
      ensures out == if NamesSet() then Ok else Fail(NameRequired)
    {
      if upName == "" || downName == "" {
        return Fail(NameRequired);
      }
      return Ok;
    }
  }
}
