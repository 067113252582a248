/** The migration runner: DDL takes effect statement by statement, the version row of a file
    only after all of its statements, and a run may fail anywhere. */
module Migrations {
  import opened Sequences
  import opened Rows

  type Obj = string
  /** Each object (a table, column or index) with its definition. */
  type Schema = map<Obj, string>
  type Version = string

  /** A statement that adds one object, content to find it there if it says IF NOT EXISTS, or one that
      sets the type of an object already there. */
  datatype Statement =
    | Create(obj: Obj, definition: string, needs: set<Obj>, ifAbsent: bool)
    | SetType(obj: Obj, definition: string)

  datatype File = File(version: Version, statements: seq<Statement>)

  const TRACKING := "schema_migrations"

  function Execute(s: Schema, stmt: Statement): Option<Schema> {
    match stmt
    case Create(obj, definition, needs, ifAbsent) =>
      if !(needs <= s.Keys) || (obj in s && !ifAbsent) then None
      else if obj in s then Some(s)
      else Some(s[obj := definition])
    case SetType(obj, definition) =>
      if obj in s then Some(s[obj := definition]) else None
  }

  /** A statement that may take effect a second time. */
  predicate Repeatable(stmt: Statement) {
    stmt.SetType? || stmt.ifAbsent
  }

  /** What a statement needs, and what it does: it adds its object or sets its type and touches no other, IF NOT
      EXISTS leaves an object that is there as it is, and it can run again right after it ran exactly if it is
      repeatable, changing nothing more. */
  lemma ExecutedOnceAndAgain(s: Schema, stmt: Statement)
    ensures Execute(s, stmt).Some? <==>
      if stmt.Create? then stmt.needs <= s.Keys && (stmt.ifAbsent || stmt.obj !in s) else stmt.obj in s
    ensures Execute(s, stmt).Some? ==>
      var once := Execute(s, stmt).value;
      && once.Keys == s.Keys + {stmt.obj}
      && (forall obj :: obj in s && obj != stmt.obj ==> once[obj] == s[obj])
      && once[stmt.obj] == (if stmt.obj in s && stmt.Create? then s[stmt.obj] else stmt.definition)
      && Execute(once, stmt) == if Repeatable(stmt) then Some(once) else None
  {
    if Execute(s, stmt).Some? {
      var once := Execute(s, stmt).value;
      assert once[stmt.obj := once[stmt.obj]] == once;
    }
  }

  function After(s: Schema, stmts: seq<Statement>): Option<Schema> {
    if stmts == [] then Some(s)
    else
      var before := After(s, stmts[..|stmts| - 1]);
      if before.None? then None else Execute(before.value, stmts[|stmts| - 1])
  }

  /** Statement lists run one after the other, the first failure ending the run. */
  lemma {:induction false} AfterAppend(s: Schema, stmts: seq<Statement>, more: seq<Statement>)
    ensures After(s, stmts + more) == if After(s, stmts).Some? then After(After(s, stmts).value, more) else None
    ensures |more| == 1 ==> After(s, more) == Execute(s, more[0])
  {
    if more == [] {
      assert stmts + more == stmts;
    } else {
      var n := |more| - 1;
      AfterAppend(s, stmts, more[..n]);
      assert (stmts + more)[..|stmts| + n] == stmts + more[..n];
    }
  }

  /** The schema of one undisturbed run, once `files` are applied. */
  function Clean(files: seq<File>): Option<Schema> {
    if files == [] then Some(map[TRACKING := ""])
    else
      var before := Clean(files[..|files| - 1]);
      if before.None? then None else After(before.value, files[|files| - 1].statements)
  }

  lemma CleanMore(files: seq<File>, file: File)
    ensures Clean([]) == Some(map[TRACKING := ""])
    ensures Clean(files + [file]) == if Clean(files).Some? then After(Clean(files).value, file.statements) else None
  {
    assert (files + [file])[..|files|] == files;
  }

  /** Sorted file names are distinct, and an undisturbed run succeeds. */
  ghost predicate GoodDirectory(files: seq<File>) {
    && (forall i, j :: 0 <= i < j < |files| ==> files[i].version != files[j].version)
    && Clean(files).Some?
  }

  lemma {:induction false} CleanPrefix(files: seq<File>, n: nat)
    requires Clean(files).Some? && n <= |files|
    ensures Clean(files[..n]).Some?
    decreases |files|
  {
    if n < |files| {
      CleanPrefix(files[..|files| - 1], n);
      assert files[..|files| - 1][..n] == files[..n];
    } else {
      assert files[..n] == files;
    }
  }

  /** Objects are only added along a statement list. */
  lemma {:induction false} AfterGrows(s: Schema, stmts: seq<Statement>, n: nat)
    requires After(s, stmts).Some? && n <= |stmts|
    ensures After(s, stmts[..n]).Some?
    ensures s.Keys <= After(s, stmts[..n]).value.Keys <= After(s, stmts).value.Keys
    decreases |stmts|
  {
    if n < |stmts| {
      AfterGrows(s, stmts[..|stmts| - 1], n);
      assert stmts[..|stmts| - 1][..n] == stmts[..n];
    } else {
      assert stmts[..n] == stmts;
      if n > 0 { AfterGrows(s, stmts[..n - 1], n - 1); }
    }
  }

  lemma StatementRan(s: Schema, stmts: seq<Statement>, j: nat)
    requires After(s, stmts).Some? && j < |stmts|
    ensures After(s, stmts[..j]).Some? && After(s, stmts[..j + 1]).Some?
    ensures After(s, stmts[..j + 1]) == Execute(After(s, stmts[..j]).value, stmts[j])
    ensures After(s, stmts[..j]).value.Keys <= After(s, stmts).value.Keys
    ensures stmts[j].obj in After(s, stmts).value
  {
    AfterGrows(s, stmts, j);
    AfterGrows(s, stmts, j + 1);
    assert stmts[..j + 1][..j] == stmts[..j];
  }

  // ---------------------------------------------------------------- an interrupted file

  /** One of the first `n` statements sets the type of `obj`. */
  ghost predicate Altered(stmts: seq<Statement>, n: nat, obj: Obj)
    requires n <= |stmts|
  {
    exists i :: 0 <= i < n && stmts[i].SetType? && stmts[i].obj == obj
  }

  /** What interrupted passes over a file leave when `partial` is the furthest statement reached: the
      objects of an undisturbed run stopped there, and its definitions but for the altered ones. */
  ghost predicate Reached(schema: Schema, base: Schema, stmts: seq<Statement>, partial: nat)
    requires partial <= |stmts|
  {
    var clean := After(base, stmts[..partial]);
    && clean.Some? && schema.Keys == clean.value.Keys
    && forall obj :: obj in schema && !Altered(stmts, partial, obj) ==> schema[obj] == clean.value[obj]
  }

  /** This pass is through the first `j` statements: what they altered is as they leave it. */
  ghost predicate Refreshed(schema: Schema, base: Schema, stmts: seq<Statement>, j: nat)
    requires j <= |stmts|
  {
    var clean := After(base, stmts[..j]);
    && clean.Some?
    && forall obj :: Altered(stmts, j, obj) ==> obj in schema && obj in clean.value && schema[obj] == clean.value[obj]
  }

  /** A pass that has come as far as any before it is where an undisturbed run would be. */
  lemma CaughtUp(schema: Schema, base: Schema, stmts: seq<Statement>, n: nat)
    requires n <= |stmts| && Reached(schema, base, stmts, n) && Refreshed(schema, base, stmts, n)
    ensures After(base, stmts[..n]) == Some(schema)
  {
    var clean := After(base, stmts[..n]).value;
    forall obj | obj in schema ensures schema[obj] == clean[obj] {
      assert Altered(stmts, n, obj) || !Altered(stmts, n, obj);
    }
    assert schema == clean;
  }

  lemma WholePass(schema: Schema, base: Schema, stmts: seq<Statement>, partial: nat, j: nat)
    requires j == partial == |stmts| && Reached(schema, base, stmts, partial) && Refreshed(schema, base, stmts, j)
    ensures After(base, stmts) == Some(schema)
  {
    CaughtUp(schema, base, stmts, j);
    assert stmts[..j] == stmts;
  }

  lemma NothingAltered(schema: Schema, base: Schema, stmts: seq<Statement>)
    ensures Refreshed(schema, base, stmts, 0)
  {
    assert stmts[..0] == [];
  }

  lemma AlteredNext(stmts: seq<Statement>, j: nat, obj: Obj)
    requires j < |stmts|
    ensures Altered(stmts, j + 1, obj) <==> Altered(stmts, j, obj) || (stmts[j].SetType? && stmts[j].obj == obj)
  {
  }

  lemma {:induction false} AlteredIsThere(base: Schema, stmts: seq<Statement>, j: nat, obj: Obj)
    requires After(base, stmts).Some? && j <= |stmts| && Altered(stmts, j, obj)
    ensures After(base, stmts[..j]).Some? && obj in After(base, stmts[..j]).value
  {
    var i :| 0 <= i < j && stmts[i].SetType? && stmts[i].obj == obj;
    AfterGrows(base, stmts, j);
    assert stmts[..j][i] == stmts[i];
    StatementRan(base, stmts[..j], i);
  }

  /** Statement `j` of a file interrupted after `partial` statements, met again by a later pass: one that
      took effect before runs again exactly if it is repeatable, and the first one that did not, runs. */
  lemma RetryStep(base: Schema, stmts: seq<Statement>, partial: nat, schema: Schema, j: nat)
    requires After(base, stmts).Some? && j <= partial <= |stmts| && j < |stmts|
    requires Reached(schema, base, stmts, partial) && Refreshed(schema, base, stmts, j)
    ensures Execute(schema, stmts[j]).Some? <==> j == partial || Repeatable(stmts[j])
    ensures var after := Execute(schema, stmts[j]);
      after.Some? ==>
        && Reached(after.value, base, stmts, if j == partial then j + 1 else partial)
        && Refreshed(after.value, base, stmts, j + 1)
  {
    StatementRan(base, stmts, j);
    if j == partial {
      CaughtUp(schema, base, stmts, j);
      var clean := After(base, stmts[..j + 1]).value;
      forall obj | Altered(stmts, j + 1, obj) ensures obj in clean {
        AlteredIsThere(base, stmts, j + 1, obj);
      }
    } else {
      RepeatedStep(base, stmts, partial, schema, j);
    }
  }

  lemma RepeatedStep(base: Schema, stmts: seq<Statement>, partial: nat, schema: Schema, j: nat)
    requires After(base, stmts).Some? && j < partial <= |stmts|
    requires Reached(schema, base, stmts, partial) && Refreshed(schema, base, stmts, j)
    ensures Execute(schema, stmts[j]).Some? <==> Repeatable(stmts[j])
    ensures var after := Execute(schema, stmts[j]);
      after.Some? ==> Reached(after.value, base, stmts, partial) && Refreshed(after.value, base, stmts, j + 1)
  {
    AfterGrows(base, stmts, partial);
    StatementRan(base, stmts[..partial], j);
    assert stmts[..partial][..j] == stmts[..j] && stmts[..partial][j] == stmts[j];
    if Execute(schema, stmts[j]).Some? {
      assert stmts[j].SetType? ==> Altered(stmts, partial, stmts[j].obj);
      StatementRan(base, stmts, j);
      RefreshedNext(base, stmts, schema, j);
    }
  }

  lemma RefreshedNext(base: Schema, stmts: seq<Statement>, schema: Schema, j: nat)
    requires j < |stmts| && Refreshed(schema, base, stmts, j) && stmts[j].obj in schema
    requires Execute(schema, stmts[j]).Some? && After(base, stmts[..j + 1]).Some?
    requires After(base, stmts[..j + 1]) == Execute(After(base, stmts[..j]).value, stmts[j])
    ensures Refreshed(Execute(schema, stmts[j]).value, base, stmts, j + 1)
  {
    var after, clean := Execute(schema, stmts[j]).value, After(base, stmts[..j + 1]).value;
    forall obj | Altered(stmts, j + 1, obj) ensures obj in after && obj in clean && after[obj] == clean[obj] {
      AlteredNext(stmts, j, obj);
    }
  }

  function Versions(files: seq<File>): set<Version> {
    set f | f in files :: f.version
  }

  lemma NextVersions(files: seq<File>, n: nat)
    requires n < |files|
    ensures Versions(files[..n + 1]) == Versions(files[..n]) + {files[n].version}
  {
    assert files[..n + 1] == files[..n] + [files[n]];
  }

  function PendingFiles(files: seq<File>, applied: set<Version>): seq<File> {
    if files == [] then []
    else PendingFiles(files[..|files| - 1], applied) + (if files[|files| - 1].version in applied then []
    else [files[|files| - 1]])
  }

  /** With a prefix recorded, what is pending is the rest, in order. */
  lemma {:induction false} PendingIsTheRest(files: seq<File>, n: nat)
    requires n <= |files|
    requires forall i, j :: 0 <= i < j < |files| ==> files[i].version != files[j].version
    ensures PendingFiles(files, Versions(files[..n])) == files[n..]
  {
    forall i | 0 <= i < |files| ensures files[i].version in Versions(files[..n]) <==> i < n {
      RecordedIff(files, n, i);
    }
    PendingFrom(files, Versions(files[..n]), n);
  }

  lemma {:induction false} PendingFrom(files: seq<File>, applied: set<Version>, n: nat)
    requires forall i :: 0 <= i < |files| ==> (files[i].version in applied <==> i < n)
    ensures PendingFiles(files, applied) == From(files, n)
  {
    if files != [] {
      PendingFrom(files[..|files| - 1], applied, n);
      FromLast(files, n);
    }
  }

  function From(files: seq<File>, n: nat): seq<File> {
    if n >= |files| then [] else files[n..]
  }

  lemma FromLast(files: seq<File>, n: nat)
    requires files != []
    ensures From(files, n) == From(files[..|files| - 1], n) + if |files| - 1 < n then [] else [files[|files| - 1]]
  {
  }

  lemma RecordedIff(files: seq<File>, n: nat, i: nat)
    requires n <= |files| && i < |files|
    requires forall i, j :: 0 <= i < j < |files| ==> files[i].version != files[j].version
    ensures files[i].version in Versions(files[..n]) <==> i < n
  {
    if i < n {
      assert files[..n][i] == files[i];
    }
  }

  /** Which external failures hit a run: at the bootstrap, before statement `j` of the file
      with a given version, or, with
      `j` the statement count, at the version insert. */
  datatype Weather = Weather(bootstrapFails: bool, fails: (Version, nat) -> bool)

  ghost predicate Calm(w: Weather) {
    !w.bootstrapFails && forall v: Version, j: nat :: !w.fails(v, j)
  }

  ghost predicate CanRerun(stmts: seq<Statement>, n: nat)
    requires n <= |stmts|
  {
    forall j :: 0 <= j < n ==> Repeatable(stmts[j])
  }

  lemma FewerRerun(stmts: seq<Statement>, few: nat, many: nat)
    requires few <= many <= |stmts|
    ensures CanRerun(stmts, many) ==> CanRerun(stmts, few)
  {
  }

  lemma OneMoreRerun(stmts: seq<Statement>, j: nat, partial: nat)
    requires j < |stmts| && partial <= |stmts| && CanRerun(stmts, Min(j, partial))
    requires j < partial ==> Repeatable(stmts[j])
    ensures CanRerun(stmts, Min(j + 1, partial))
  {
  }

  /** What stops a pass at statement `j` is an outside failure or a statement that cannot run again. */
  lemma Blocked(stmts: seq<Statement>, version: Version, j: nat, partial: nat, w: Weather)
    requires j < |stmts| && partial <= |stmts| && (w.fails(version, j) || (j < partial && !Repeatable(stmts[j])))
    ensures !(Calm(w) && CanRerun(stmts, partial))
  {
  }

  class Migrator {
    const files: seq<File>
    var schema: Schema
    var recorded: set<Version>
    ghost var done: nat     // files recorded
    ghost var partial: nat  // statements of the next file that have taken effect

    ghost function Next(): seq<Statement>
      reads this
    {
      if done < |files| then files[done].statements else []
    }

    /** The schema is what passes over file `done` that came as far as statement `partial` leave, and the
        recorded versions are the first `done` files'. */
    ghost predicate Valid()
      reads this
    {
      && GoodDirectory(files)
      && done <= |files| && partial <= |Next()|
      && recorded == Versions(files[..done])
      && (TRACKING !in schema ==> schema == map[] && done == 0 && partial == 0)
      && (TRACKING in schema ==>
            && Clean(files[..done]).Some?
            && Reached(schema, Clean(files[..done]).value, Next(), partial))
    }

    /** Everything the interrupted file already did may be done again. */
    ghost predicate Resumable()
      reads this
      requires partial <= |Next()|
    {
      CanRerun(Next(), partial)
    }

    constructor (files: seq<File>)
      requires GoodDirectory(files)
      ensures Valid() && this.files == files && schema == map[] && recorded == {} && Resumable()
    {
      this.files := files;
      schema, recorded, done, partial := map[], {}, 0, 0;
    }

    method Bootstrap(w: Weather) returns (ok: bool)
      requires Valid()
      modifies this`schema
      ensures Valid()
      ensures !ok ==> TRACKING !in old(schema)
      ensures ok ==> TRACKING in schema
      ensures TRACKING in old(schema) ==> ok && schema == old(schema)
      ensures !w.bootstrapFails ==> ok
    {
      if TRACKING in schema {
        return true;
      }
      if w.bootstrapFails {
        return false;
      }
      schema := map[TRACKING := ""];
      assert files[..0] == [] && Next()[..0] == [];
      return true;
    }

    /** What is known of file `done` as an undisturbed run executes it. */
    lemma NextFileRuns()
      requires Valid() && TRACKING in schema && done < |files|
      ensures Clean(files[..done + 1]) == After(Clean(files[..done]).value, Next())
      ensures Clean(files[..done + 1]).Some?
    {
      CleanPrefix(files, done + 1);
      assert files[..done + 1][..done] == files[..done];
    }

    /** The statement loop of `_apply_file`, on the first unrecorded file. */
    method ExecuteStatements(file: File, w: Weather) returns (ok: bool)
      requires Valid() && TRACKING in schema && done < |files| && file == files[done]
      modifies this`schema, this`partial
      ensures TRACKING in schema && old(partial) <= partial <= |file.statements|
      ensures Reached(schema, Clean(files[..done]).value, file.statements, partial)
      ensures ok ==> partial == |file.statements| && After(Clean(files[..done]).value, file.statements) == Some(schema)
      ensures ok ==> old(Resumable())
      ensures Calm(w) && old(Resumable()) ==> ok
    {
      NextFileRuns();
      ok := Pass(Clean(files[..done]).value, file.version, file.statements, w);
    }

    method Pass(ghost base: Schema, version: Version, statements: seq<Statement>, w: Weather) returns (ok: bool)
      requires After(base, statements).Some? && partial <= |statements| && TRACKING in schema
      requires Reached(schema, base, statements, partial)
      modifies this`schema, this`partial
      ensures TRACKING in schema && old(partial) <= partial <= |statements|
      ensures Reached(schema, base, statements, partial)
      ensures ok ==>
        partial == |statements| && After(base, statements) == Some(schema) && CanRerun(statements, old(partial))
      ensures Calm(w) && CanRerun(statements, old(partial)) ==> ok
    {
      var j: nat := 0;
      ghost var start := partial;
      NothingAltered(schema, base, statements);
      while j < |statements|
        invariant j <= |statements| && Underway(base, statements, j)
        invariant partial == if j <= start then start else j
        invariant CanRerun(statements, Min(j, start))
      {
        ok := Round(base, version, statements, j, w);
        if !ok {
          Blocked(statements, version, j, start, w);
          return;
        }
        OneMoreRerun(statements, j, start);
        j := j + 1;
      }
      PassDone(base, statements, j);
      return true;
    }

    /** One round of the loop: an outside failure, or the statement. */
    method Round(ghost base: Schema, version: Version, statements: seq<Statement>, j: nat, w: Weather)
      returns (ok: bool)
      requires After(base, statements).Some? && TRACKING in schema && Underway(base, statements, j) && j < |statements|
      modifies this`schema, this`partial
      ensures TRACKING in schema
      ensures partial == old(partial) || (partial == j + 1 && j == old(partial))
      ensures partial <= |statements| && Reached(schema, base, statements, partial)
      ensures ok ==> Underway(base, statements, j + 1) && (j < old(partial) ==> Repeatable(statements[j]))
      ensures !ok ==> w.fails(version, j) || (j < old(partial) && !Repeatable(statements[j]))
    {
      if w.fails(version, j) {
        return false;
      }
      ok := ExecuteOne(base, statements, j);
    }

    /** A pass over the file has come to statement `j`. */
    ghost predicate Underway(base: Schema, statements: seq<Statement>, j: nat)
      reads this
    {
      && j <= partial <= |statements| && TRACKING in schema
      && Reached(schema, base, statements, partial) && Refreshed(schema, base, statements, j)
    }

    lemma PassDone(base: Schema, statements: seq<Statement>, j: nat)
      requires j == |statements| && Underway(base, statements, j)
      ensures partial == |statements| && After(base, statements) == Some(schema)
    {
      WholePass(schema, base, statements, partial, j);
    }

    /** `cur.execute` on statement `j`: one that took effect before runs again exactly if it is repeatable. */
    method ExecuteOne(ghost base: Schema, statements: seq<Statement>, j: nat) returns (ran: bool)
      requires After(base, statements).Some? && j <= partial <= |statements| && j < |statements|
      requires Reached(schema, base, statements, partial) && Refreshed(schema, base, statements, j)
      requires TRACKING in schema
      modifies this`schema, this`partial
      ensures partial == if j == old(partial) then j + 1 else old(partial)
      ensures partial <= |statements| && TRACKING in schema && Reached(schema, base, statements, partial)
      ensures ran <==> j == old(partial) || Repeatable(statements[j])
      ensures ran ==> Refreshed(schema, base, statements, j + 1)
    {
      RetryStep(base, statements, partial, schema, j);
      var after := Execute(schema, statements[j]);
      if after.None? {
        return false;
      }
      schema := after.value;
      if j == partial {
        partial := j + 1;
      }
      return true;
    }

    /** `_apply_file`. */
    method ApplyFile(file: File, w: Weather) returns (ok: bool)
      requires Valid() && TRACKING in schema && done < |files| && file == files[done]
      modifies this
      ensures Valid() && TRACKING in schema
      ensures ok ==> done == old(done) + 1 && partial == 0 && old(Resumable())
      ensures !ok ==> done == old(done) && partial >= old(partial) && recorded == old(recorded)
      ensures !ok && !old(Resumable()) ==> !Resumable()
      ensures Calm(w) && old(Resumable()) ==> ok
    {
      ok := ExecuteStatements(file, w);
      FewerRerun(file.statements, old(partial), partial);
      if !ok {
        return false;
      }
      if w.fails(file.version, |file.statements|) {
        return false;
      }
      RecordVersion(file);
      return true;
    }

    /** The version INSERT and its commit. */
    method RecordVersion(file: File)
      requires Valid() && TRACKING in schema && done < |files| && file == files[done] && partial == |file.statements|
      requires After(Clean(files[..done]).value, file.statements) == Some(schema)
      modifies this`recorded, this`done, this`partial
      ensures Valid() && done == old(done) + 1 && partial == 0
      ensures recorded == old(recorded) + {file.version}
    {
      NextFileRuns();
      assert file.statements[..|file.statements|] == file.statements;
      assert Clean(files[..done + 1]) == Some(schema);
      NextVersions(files, done);
      recorded := recorded + {file.version};
      done, partial := done + 1, 0;
      assert Next()[..0] == [];
    }

    /** The loop of `run` over the pending files. */
    method ApplyPending(pending: seq<File>, w: Weather) returns (ok: bool, newlyApplied: seq<Version>)
      requires Valid() && TRACKING in schema && pending == files[done..]
      modifies this
      ensures Valid() && TRACKING in schema && done >= old(done)
      ensures ok ==> done == |files| && |newlyApplied| == |pending|
      ensures ok ==> forall i :: 0 <= i < |pending| ==> newlyApplied[i] == pending[i].version
      ensures pending == [] ==> ok && schema == old(schema) && recorded == old(recorded)
      ensures ok && pending != [] ==> old(Resumable())
      ensures !ok && !old(Resumable()) ==> done == old(done) && recorded == old(recorded) && !Resumable()
      ensures Calm(w) && old(Resumable()) ==> ok
    {
      newlyApplied := [];
      var i := 0;
      while i < |pending|
        invariant 0 <= i <= |pending| && done == old(done) + i
        invariant Valid() && TRACKING in schema
        invariant |newlyApplied| == i && forall k :: 0 <= k < i ==> newlyApplied[k] == pending[k].version
        invariant i == 0 ==> schema == old(schema) && recorded == old(recorded) && partial == old(partial)
        invariant i > 0 ==> partial == 0 && old(Resumable())
      {
        ok := ApplyFile(pending[i], w);
        if !ok {
          return;
        }
        newlyApplied := newlyApplied + [pending[i].version];
        i := i + 1;
      }
      return true, newlyApplied;
    }

    /** `run` under the default policy.  A raise is a failed statement, an outside failure or a kill. */
    method Run(w: Weather) returns (r: Reply<seq<Version>>)
      requires Valid()
      modifies this
      ensures Valid() && done >= old(done)
      // finishing: every file recorded, and the schema is that of one undisturbed run
      ensures r.Returned? ==> done == |files| && recorded == Versions(files) && Some(schema) == Clean(files)
      ensures r.Returned? ==> |r.value| == |files| - old(done)
      ensures r.Returned? ==> forall i :: 0 <= i < |r.value| ==> r.value[i] == files[old(done) + i].version
      // once everything is recorded a further run applies nothing
      ensures old(done) == |files| && TRACKING in old(schema) ==>
        r == Returned([]) && schema == old(schema) && recorded == old(recorded)
      // exactly when a run that meets no outside failure finishes
      ensures Calm(w) ==> (r.Returned? <==> old(Resumable()))
      // an interrupted file with a statement that cannot run twice blocks every later run
      ensures !old(Resumable()) ==> r.Raised? && done == old(done) && recorded == old(recorded) && !Resumable()
    {
      var booted := Bootstrap(w);
      if !booted {
        return Raised(StatementFailed);
      }
      var pending := PendingFiles(files, recorded);
      PendingIsTheRest(files, done);
      var ok, newlyApplied := ApplyPending(pending, w);
      if !ok {
        return Raised(StatementFailed);
      }
      Finished();
      assert forall i :: 0 <= i < |pending| ==> pending[i] == files[old(done) + i];
      return Returned(newlyApplied);
    }

    lemma Finished()
      requires Valid() && TRACKING in schema && done == |files|
      ensures recorded == Versions(files) && Some(schema) == Clean(files)
    {
      assert files[..|files|] == files;
      assert Next()[..partial] == [];
      CaughtUp(schema, Clean(files).value, Next(), partial);
    }
  }
}
