/**
 The migration runner (internal/repository/db.go) on the six files of `migrations/`.

 A run is a sequence of commits and can be cut after any of them; a cut run is started
 again from the beginning. The statements of 001 commit one by one, because the runner
 executes that file outside a transaction; every other file commits together with its
 ledger row. Files are named by their position 0..5 in sorted order.
 */
module Migrations {
  import opened Options

  const FILES: nat := 6
  /** The statements of 001 after its PRAGMAs; the first creates `users`, the eleventh `announcements`. */
  const INIT_SIZE: nat := 27

  /** Schema objects, and the seed rows of 001. */
  datatype Obj =
    | Users | AnnouncementTable | InitPart(k: nat)
    | AccessControl
    | AuthVersions
    | RegistrationDefaults
    | PhoneColumn | PhoneIndex | SmsTable | PurposeIndex | SentIndex
    | DeliveryColumn(k: nat) | TargetTable | ReceiptTable | DeliveryIndex(k: nat)

  function FileOf(o: Obj): nat {
    match o
    case Users => 0 case AnnouncementTable => 0 case InitPart(_) => 0
    case AccessControl => 1
    case AuthVersions => 2
    case RegistrationDefaults => 3
    case PhoneColumn => 4 case PhoneIndex => 4 case SmsTable => 4 case PurposeIndex => 4 case SentIndex => 4
    case _ => 5
  }

  /** What the k-th statement of 001 creates. */
  function InitObj(k: nat): Obj {
    if k == 0 then Users else if k == 10 then AnnouncementTable else InitPart(k)
  }

  function InitObjs(n: nat): set<Obj> {
    set k: nat | k < n :: InitObj(k)
  }

  const COLUMNS: nat := 11

  function Columns(n: nat): set<Obj> {
    set k: nat | k < n :: DeliveryColumn(k)
  }

  const ALL: set<Obj> :=
    InitObjs(INIT_SIZE)
    + {AccessControl, AuthVersions, RegistrationDefaults, PhoneColumn, PhoneIndex, SmsTable, PurposeIndex, SentIndex}
    + Columns(COLUMNS) + {TargetTable, ReceiptTable, DeliveryIndex(0), DeliveryIndex(1), DeliveryIndex(2)}

  /** The schema after the first `i` files. */
  function Applied(i: nat): set<Obj> {
    set o | o in ALL && FileOf(o) < i
  }

  function Below(n: nat): (r: set<nat>)
    ensures forall f: nat :: f in r <==> f < n
  {
    if n == 0 then {} else Below(n - 1) + {n - 1}
  }

  /** `CREATE .. IF NOT EXISTS` and `INSERT OR IGNORE`; `ALTER TABLE .. ADD COLUMN`, which
      fails on a second try; and statements that only touch rows of existing tables. */
  datatype Stmt = Ensure(obj: Obj, needs: set<Obj>) | Add(obj: Obj, needs: set<Obj>) | Fill(needs: set<Obj>)

  function Exec(schema: set<Obj>, stmts: seq<Stmt>): Option<set<Obj>>
    decreases |stmts|
  {
    if stmts == [] then Some(schema)
    else if !(stmts[0].needs <= schema) then None
    else match stmts[0]
      case Ensure(o, _) => Exec(schema + {o}, stmts[1..])
      case Add(o, _) => if o in schema then None else Exec(schema + {o}, stmts[1..])
      case Fill(_) => Exec(schema, stmts[1..])
  }

  /** The `ADD COLUMN` statements of 006 from the given one on. */
  function AddColumns(from: nat): seq<Stmt>
    requires from <= COLUMNS
  {
    seq(COLUMNS - from, k requires 0 <= k => Add(DeliveryColumn(from + k), {AnnouncementTable}))
  }

  function PhoneTables(): seq<Stmt> {
    [Ensure(PhoneIndex, {Users, PhoneColumn})] + ([Ensure(SmsTable, {})]
      + ([Ensure(PurposeIndex, {SmsTable})] + ([Ensure(SentIndex, {SmsTable})] + [])))
  }

  function DeliveryTables(): seq<Stmt> {
    [Fill({AnnouncementTable})] + ([Ensure(TargetTable, {})] + ([Ensure(ReceiptTable, {})]
      + ([Ensure(DeliveryIndex(0), {TargetTable})] + ([Ensure(DeliveryIndex(1), {ReceiptTable})]
      + ([Ensure(DeliveryIndex(2), {AnnouncementTable})] + [])))))
  }

  /** The files run in a transaction; 005 loses its `ADD COLUMN` when the column is there. */
  function Statements(f: nat, schema: set<Obj>): seq<Stmt>
    requires 0 < f < FILES
  {
    if f == 1 then [Ensure(AccessControl, {}), Fill({Users, AccessControl})]
    else if f == 2 then [Ensure(AuthVersions, {}), Fill({Users, AuthVersions})]
    else if f == 3 then [Ensure(RegistrationDefaults, {}), Fill({RegistrationDefaults})]
    else if f == 4 then
      if PhoneColumn in schema then PhoneTables() else [Add(PhoneColumn, {Users})] + PhoneTables()
    else AddColumns(0) + DeliveryTables()
  }

  datatype Db = Db(schema: set<Obj>, ledger: set<nat>)

  /** Where a run stands: probing the k-th artifact, at file f, inside 001 after p of its
      statements, or between running 001 and recording it. */
  datatype Phase = Idle | Reconciling(k: nat) | Visiting(f: nat) | Init(p: nat) | Recording | Finished | Failed

  /** The database, the run in progress, and the files whose effects were committed. */
  datatype System = System(db: Db, phase: Phase, log: seq<nat>)

  /** The table that tells `reconcileExistingMigrations` that file k was applied. */
  function Artifact(k: nat): Obj
    requires k < 4
  {
    if k == 0 then Users else if k == 1 then AccessControl else if k == 2 then AuthVersions else RegistrationDefaults
  }

  predicate Detected(schema: set<Obj>, k: nat)
    requires k <= 4
  {
    if k < 4 then Artifact(k) in schema
    else {PhoneColumn, SmsTable, PhoneIndex, PurposeIndex, SentIndex} <= schema
  }

  function Recorded(db: Db, f: nat): Db { db.(ledger := db.ledger + {f}) }

  /** The next commit of the run. */
  function Advance(s: System): System {
    match s.phase
    case Idle => s.(phase := Reconciling(0))
    case Reconciling(k) =>
      if k > 4 then s.(phase := Visiting(0))
      else s.(db := if Detected(s.db.schema, k) then Recorded(s.db, k) else s.db, phase := Reconciling(k + 1))
    case Visiting(f) =>
      if f >= FILES then s.(phase := Finished)
      else if f in s.db.ledger then s.(phase := Visiting(f + 1))
      else if f == 0 then s.(phase := Init(0))
      else
        var result := Exec(s.db.schema, Statements(f, s.db.schema));
        if result.None? then s.(phase := Failed)
        else System(Db(result.value, s.db.ledger + {f}), Visiting(f + 1), s.log + [f])
    case Init(p) =>
      if p < INIT_SIZE then s.(db := s.db.(schema := s.db.schema + {InitObj(p)}), phase := Init(p + 1))
      else s.(phase := Recording, log := s.log + [0])
    case Recording => s.(db := Recorded(s.db, 0), phase := Visiting(1))
    case Finished => s
    case Failed => s
  }

  datatype Event = Commit | Cut

  function Step(s: System, e: Event): System {
    if e == Commit then Advance(s) else s.(phase := Idle)
  }

  function Run(s: System, run: seq<Event>): System
    decreases |run|
  {
    if run == [] then s else Run(Step(s, run[0]), run[1..])
  }

  /** How many more commits a run can take. */
  function Remaining(phase: Phase): nat {
    match phase
    case Idle => 300
    case Reconciling(k) => 281 + if k <= 4 then 5 - k else 0
    case Visiting(f) => if f <= FILES then 40 * (FILES + 1 - f) else 1
    case Init(p) => 242 + if p < INIT_SIZE then INIT_SIZE - p else 0
    case Recording => 241
    case _ => 0
  }

  /** A run that is not cut again, to its end. */
  function Completed(s: System): (end: System)
    ensures end.phase.Finished? || end.phase.Failed?
    decreases Remaining(s.phase)
  {
    if s.phase.Finished? || s.phase.Failed? then s else Completed(Advance(s))
  }

  class Runner {
    var db: Db
    ghost var log: seq<nat>

    constructor (db: Db)
      ensures this.db == db && log == []
    {
      this.db, log := db, [];
    }

    /** `RunMigrations`, uninterrupted: reconcile, then one file at a time. */
    method RunMigrations() returns (ok: bool)
      modifies this
      ensures var end := Completed(System(old(db), Idle, old(log)));
              db == end.db && log == end.log && (ok <==> end.phase.Finished?)
    {
      ghost var end := Completed(System(db, Idle, log));
      for k := 0 to 5
        invariant Completed(System(db, Reconciling(k), log)) == end
      {
        if Detected(db.schema, k) {
          db := Recorded(db, k);
        }
      }
      for f := 0 to FILES
        invariant Completed(System(db, Visiting(f), log)) == end
      {
        if f in db.ledger {
          continue;
        }
        if f == 0 {
          ExecuteInit(end);
          db := Recorded(db, 0);
          continue;
        }
        var result := Exec(db.schema, Statements(f, db.schema));
        if result.None? {
          return false;
        }
        db := Db(result.value, db.ledger + {f});
        log := log + [f];
      }
      return true;
    }

    /** The statements of 001, each its own commit. */
    method ExecuteInit(ghost end: System)
      requires Completed(System(db, Init(0), log)) == end
      modifies this
      ensures Completed(System(db, Recording, log)) == end
      ensures db == Db(old(db).schema + InitObjs(INIT_SIZE), old(db).ledger) && log == old(log) + [0]
    {
      for p := 0 to INIT_SIZE
        invariant Completed(System(db, Init(p), log)) == end && log == old(log)
        invariant db == Db(old(db).schema + InitObjs(p), old(db).ledger)
      {
        InitNext(p);
        db := db.(schema := db.schema + {InitObj(p)});
      }
      log := log + [0];
    }
  }

  lemma InitNext(p: nat)
    ensures InitObjs(p + 1) == InitObjs(p) + {InitObj(p)}
  {
  }

  // ---------------------------------------------------------------- healthy databases

  ghost predicate Full(db: Db) { db == Db(Applied(FILES), Below(FILES)) }

  /** The schema of the first `i` files, or of four files and a stray phone column. */
  ghost predicate SchemaAt(schema: set<Obj>, i: nat) {
    i <= FILES && (schema == Applied(i) || (i == 4 && schema == Applied(4) + {PhoneColumn}))
  }

  /** The first `i` files are applied and any part of them is recorded; only the last file
      has to be, since no artifact would tell that it was applied. */
  ghost predicate HealthyAt(db: Db, i: nat) {
    SchemaAt(db.schema, i) && db.ledger <= Below(i) && (i == FILES ==> FILES - 1 in db.ledger)
  }

  /** Effects were committed once each and in sorted order, all of them among the first `i`. */
  ghost predicate LogAt(log: seq<nat>, i: nat) {
    (forall j :: 0 <= j < |log| ==> log[j] < i) && (forall j, k :: 0 <= j < k < |log| ==> log[j] < log[k])
  }

  ghost predicate GoodAt(s: System, i: nat) {
    match s.phase
    case Idle => HealthyAt(s.db, i) && LogAt(s.log, i)
    case Reconciling(k) =>
      HealthyAt(s.db, i) && LogAt(s.log, i) && k <= 5 && (forall f: nat :: f < k && f < i ==> f in s.db.ledger)
    case Visiting(f) => SchemaAt(s.db.schema, i) && s.db.ledger == Below(i) && f <= i && LogAt(s.log, i)
    case Init(p) => i == 0 && p <= INIT_SIZE && s.db == Db(InitObjs(p), {}) && LogAt(s.log, 0)
    case Recording => i == 1 && s.db == Db(Applied(1), {}) && LogAt(s.log, 1)
    case Finished => i == FILES && Full(s.db) && LogAt(s.log, i)
    case Failed => false
  }

  ghost predicate Good(s: System) { exists i: nat :: GoodAt(s, i) }

  lemma InitIsAll(o: Obj)
    ensures o in InitObjs(INIT_SIZE) ==> FileOf(o) == 0
    ensures o in Columns(COLUMNS) ==> FileOf(o) == 5
    ensures Users in ALL && AnnouncementTable in ALL
  {
    assert Users == InitObj(0) && AnnouncementTable == InitObj(10);
  }

  lemma AppliedInit()
    ensures Applied(0) == {} == InitObjs(0) && Applied(1) == InitObjs(INIT_SIZE)
  {
    forall o ensures o in Applied(1) <==> o in InitObjs(INIT_SIZE) {
      InitIsAll(o);
    }
  }

  lemma AppliedMembers(schema: set<Obj>, i: nat)
    requires SchemaAt(schema, i)
    ensures forall k: nat :: k < 4 ==> (Artifact(k) in schema <==> k < i)
    ensures forall k: nat :: k <= 4 ==> (Detected(schema, k) <==> k < i)
    ensures AnnouncementTable in schema <==> 0 < i
    ensures forall k: nat :: k < COLUMNS ==> (DeliveryColumn(k) in schema <==> 5 < i)
  {
    InitIsAll(Users);
    forall k: nat | k < COLUMNS ensures DeliveryColumn(k) in ALL {
      assert DeliveryColumn(k) in Columns(COLUMNS);
    }
  }

  /** What each transactional file adds. */
  function Added(f: nat): set<Obj>
    requires 0 < f < FILES
  {
    if f == 1 then {AccessControl}
    else if f == 2 then {AuthVersions}
    else if f == 3 then {RegistrationDefaults}
    else if f == 4 then {PhoneColumn, PhoneIndex, SmsTable, PurposeIndex, SentIndex}
    else Columns(COLUMNS) + DELIVERY
  }

  const DELIVERY := {TargetTable, ReceiptTable, DeliveryIndex(0), DeliveryIndex(1), DeliveryIndex(2)}

  lemma AddedExactly(f: nat, o: Obj)
    requires 0 < f < FILES
    ensures o in Added(f) <==> o in ALL && FileOf(o) == f
  {
    InitIsAll(o);
    if f == 4 {
    } else if f == 5 {
    }
  }

  lemma AppliedNext(f: nat)
    requires 0 < f < FILES
    ensures Applied(f + 1) == Applied(f) + Added(f)
  {
    forall o ensures o in Applied(f + 1) <==> o in Applied(f) + Added(f) {
      AddedExactly(f, o);
    }
  }

  function ColumnsFrom(from: nat): set<Obj> {
    set k: nat | from <= k < COLUMNS :: DeliveryColumn(k)
  }

  lemma {:induction false} ExecColumns(schema: set<Obj>, from: nat, rest: seq<Stmt>)
    requires from <= COLUMNS && AnnouncementTable in schema
    requires forall k: nat :: from <= k < COLUMNS ==> DeliveryColumn(k) !in schema
    ensures Exec(schema, AddColumns(from) + rest) == Exec(schema + ColumnsFrom(from), rest)
    decreases COLUMNS - from
  {
    if from == COLUMNS {
      assert AddColumns(from) + rest == rest;
      assert schema + ColumnsFrom(from) == schema;
    } else {
      var stmts := AddColumns(from) + rest;
      assert stmts == [Add(DeliveryColumn(from), {AnnouncementTable})] + (AddColumns(from + 1) + rest);
      ExecOne(schema, Add(DeliveryColumn(from), {AnnouncementTable}), AddColumns(from + 1) + rest);
      ExecColumns(schema + {DeliveryColumn(from)}, from + 1, rest);
      assert schema + {DeliveryColumn(from)} + ColumnsFrom(from + 1) == schema + ColumnsFrom(from);
    }
  }

  lemma ExecOne(schema: set<Obj>, first: Stmt, rest: seq<Stmt>)
    ensures Exec(schema, [first] + rest)
         == if !(first.needs <= schema) || (first.Add? && first.obj in schema) then None
            else Exec(if first.Fill? then schema else schema + {first.obj}, rest)
  {
    assert ([first] + rest)[1..] == rest;
  }

  const PHONE := {PhoneIndex, SmsTable, PurposeIndex, SentIndex}

  lemma ExecPhoneTables(schema: set<Obj>)
    requires {Users, PhoneColumn} <= schema
    ensures Exec(schema, PhoneTables()) == Some(schema + PHONE)
  {
    var e1, e2, e3, e4 := Ensure(PhoneIndex, {Users, PhoneColumn}), Ensure(SmsTable, {}),
                          Ensure(PurposeIndex, {SmsTable}), Ensure(SentIndex, {SmsTable});
    ExecOne(schema, e1, [e2] + ([e3] + ([e4] + [])));
    ExecOne(schema + {PhoneIndex}, e2, [e3] + ([e4] + []));
    ExecOne(schema + {PhoneIndex} + {SmsTable}, e3, [e4] + []);
    ExecOne(schema + {PhoneIndex} + {SmsTable} + {PurposeIndex}, e4, []);
    assert schema + {PhoneIndex} + {SmsTable} + {PurposeIndex} + {SentIndex} == schema + PHONE;
  }

  lemma ExecPhone(f: nat, schema: set<Obj>)
    requires f == 4 && SchemaAt(schema, f)
    ensures Exec(schema, Statements(f, schema)) == Some(Applied(f + 1))
  {
    AppliedMembers(schema, f);
    AppliedNext(f);
    assert Artifact(0) == Users;
    var with := schema + {PhoneColumn};
    if PhoneColumn in schema {
      assert with == schema;
    } else {
      ExecOne(schema, Add(PhoneColumn, {Users}), PhoneTables());
    }
    ExecPhoneTables(with);
    assert Added(f) == {PhoneColumn} + PHONE;
    assert with + PHONE == Applied(f) + Added(f);
  }

  lemma ExecDeliveryTables(schema: set<Obj>)
    requires AnnouncementTable in schema
    ensures Exec(schema, DeliveryTables()) == Some(schema + DELIVERY)
  {
    var e1, e2, e3 := Fill({AnnouncementTable}), Ensure(TargetTable, {}), Ensure(ReceiptTable, {});
    var e4, e5, e6 := Ensure(DeliveryIndex(0), {TargetTable}), Ensure(DeliveryIndex(1), {ReceiptTable}),
                      Ensure(DeliveryIndex(2), {AnnouncementTable});
    ExecOne(schema, e1, [e2] + ([e3] + ([e4] + ([e5] + ([e6] + [])))));
    ExecOne(schema, e2, [e3] + ([e4] + ([e5] + ([e6] + []))));
    var s2 := schema + {TargetTable};
    ExecOne(s2, e3, [e4] + ([e5] + ([e6] + [])));
    var s3 := s2 + {ReceiptTable};
    ExecOne(s3, e4, [e5] + ([e6] + []));
    var s4 := s3 + {DeliveryIndex(0)};
    ExecOne(s4, e5, [e6] + []);
    ExecOne(s4 + {DeliveryIndex(1)}, e6, []);
    assert s4 + {DeliveryIndex(1)} + {DeliveryIndex(2)} == schema + DELIVERY;
  }

  lemma ExecDelivery(f: nat, schema: set<Obj>)
    requires f == 5 && SchemaAt(schema, f)
    ensures Exec(schema, Statements(f, schema)) == Some(Applied(f + 1))
  {
    AppliedMembers(schema, f);
    AppliedNext(f);
    ExecColumns(schema, 0, DeliveryTables());
    assert ColumnsFrom(0) == Columns(COLUMNS);
    ExecDeliveryTables(schema + Columns(COLUMNS));
    assert schema + Columns(COLUMNS) + DELIVERY == schema + Added(f);
  }

  /** Each file takes the schema of its predecessors to its own. */
  lemma ExecFile(f: nat, schema: set<Obj>)
    requires 0 < f < FILES && SchemaAt(schema, f)
    ensures Exec(schema, Statements(f, schema)) == Some(Applied(f + 1))
  {
    AppliedMembers(schema, f);
    if f == 4 {
      ExecPhone(f, schema);
    } else if f == 5 {
      ExecDelivery(f, schema);
    } else {
      AppliedNext(f);
      var stmts := Statements(f, schema);
      assert stmts == [stmts[0]] + [stmts[1]] && [stmts[1]] + [] == [stmts[1]];
      assert Artifact(0) == Users;
      ExecOne(schema, stmts[0], [stmts[1]]);
      ExecOne(schema + {stmts[0].obj}, stmts[1], []);
    }
  }

  // ---------------------------------------------------------------- convergence

  lemma DetectedExactly(schema: set<Obj>, i: nat, k: nat)
    requires SchemaAt(schema, i) && k <= 4
    ensures Detected(schema, k) <==> k < i
  {
    AppliedMembers(schema, i);
  }

  lemma LedgerDone(ledger: set<nat>, i: nat)
    requires i <= FILES && ledger <= Below(i) && (i == FILES ==> FILES - 1 in ledger)
    requires forall f: nat :: f < 5 && f < i ==> f in ledger
    ensures ledger == Below(i)
  {
    forall f: nat ensures f in ledger <==> f in Below(i) {
      if f in Below(i) && f >= 5 {
        assert i == FILES && f == FILES - 1;
      }
    }
  }

  lemma ReconcileKeepsGood(s: System, i: nat)
    requires GoodAt(s, i) && s.phase.Reconciling?
    ensures GoodAt(Advance(s), i)
  {
    if s.phase.k == 5 {
      LedgerDone(s.db.ledger, i);
    } else {
      DetectedExactly(s.db.schema, i, s.phase.k);
    }
  }

  lemma VisitKeepsGood(s: System, i: nat)
    requires GoodAt(s, i) && s.phase.Visiting?
    ensures Good(Advance(s)) && !Advance(s).phase.Failed?
  {
    var f := s.phase.f;
    if f == FILES || f in s.db.ledger {
      assert GoodAt(Advance(s), i);
    } else if f == 0 {
      AppliedInit();
      assert GoodAt(Advance(s), 0);
    } else {
      ExecFile(f, s.db.schema);
      assert GoodAt(Advance(s), f + 1);
    }
  }

  lemma CommitKeepsGood(s: System, i: nat)
    requires GoodAt(s, i)
    ensures Good(Advance(s)) && !Advance(s).phase.Failed?
  {
    if s.phase.Reconciling? {
      ReconcileKeepsGood(s, i);
    } else if s.phase.Visiting? {
      VisitKeepsGood(s, i);
    } else if s.phase.Init? {
      AppliedInit();
      InitNext(s.phase.p);
      assert GoodAt(Advance(s), if s.phase.p < INIT_SIZE then 0 else 1);
    } else {
      assert GoodAt(Advance(s), i);
    }
  }

  /** The cut falls between two statements of 001. */
  predicate InsideInit(s: System) { s.phase.Init? && 0 < s.phase.p < INIT_SIZE }

  lemma CutKeepsGood(s: System, i: nat)
    requires GoodAt(s, i) && !InsideInit(s)
    ensures Good(s.(phase := Idle))
  {
    var s' := s.(phase := Idle);
    AppliedInit();
    assert s.phase.Init? && s.phase.p == 0 ==> GoodAt(s', 0);
    assert s.phase.Init? && s.phase.p == INIT_SIZE ==> GoodAt(s', 1);
    assert !s.phase.Init? ==> GoodAt(s', i);
  }

  ghost predicate NoCutInsideInit(s: System, run: seq<Event>)
    decreases |run|
  {
    run == [] || ((run[0] == Cut ==> !InsideInit(s)) && NoCutInsideInit(Step(s, run[0]), run[1..]))
  }

  /** Runs cut at any commit other than between two statements of 001 never fail, commit
      each file's effect at most once and in sorted order, and are complete when finished. */
  lemma {:induction false} RunsConverge(s: System, run: seq<Event>)
    requires Good(s) && NoCutInsideInit(s, run)
    ensures var end := Run(s, run);
            Good(end) && !end.phase.Failed?
            && (end.phase.Finished? ==> Full(end.db))
            && forall j, k :: 0 <= j < k < |end.log| ==> end.log[j] < end.log[k]
    decreases |run|
  {
    var i: nat :| GoodAt(s, i);
    if run != [] {
      if run[0] == Commit {
        CommitKeepsGood(s, i);
      } else {
        CutKeepsGood(s, i);
      }
      RunsConverge(Step(s, run[0]), run[1..]);
    }
  }

  /** An uninterrupted run from a healthy database finishes with everything in place. */
  lemma {:induction false} HealthyCompletes(s: System)
    requires Good(s)
    ensures Completed(s).phase.Finished? && Full(Completed(s).db)
    decreases Remaining(s.phase)
  {
    var i: nat :| GoodAt(s, i);
    if !s.phase.Finished? {
      CommitKeepsGood(s, i);
      HealthyCompletes(Advance(s));
    }
  }

  /** A further run, cut or not, changes nothing. */
  lemma {:induction false} FullIsFixed(s: System, run: seq<Event>)
    requires Full(s.db) && !s.phase.Init? && !s.phase.Recording?
    ensures Run(s, run).db == s.db && Run(s, run).log == s.log
    decreases |run|
  {
    if run != [] {
      var s' := Step(s, run[0]);
      assert s'.db.ledger == s.db.ledger;
      FullIsFixed(s', run[1..]);
    }
  }

  /** Every documented starting point is healthy: an empty database, the first files
      applied by hand without a ledger, and four files with a stray phone column. With
      all six applied by hand the run fails instead, because nothing detects 006. */
  lemma UntrackedPrefix(i: nat, extra: bool)
    requires i <= FILES && (extra ==> i == 4)
    ensures var schema := if extra then Applied(i) + {PhoneColumn} else Applied(i);
            var end := Completed(System(Db(schema, {}), Idle, []));
            if i < FILES then end.phase.Finished? && Full(end.db) else end.phase.Failed?
  {
    var schema := if extra then Applied(i) + {PhoneColumn} else Applied(i);
    var s := System(Db(schema, {}), Idle, []);
    if i < FILES {
      assert GoodAt(s, i);
      HealthyCompletes(s);
    } else {
      UndetectedFails(s, i);
    }
  }

  /** The applied but unrecorded 006 makes the run stop there. */
  ghost predicate Undetected(s: System, i: nat) {
    i == FILES && s.db.schema == Applied(i) && 5 !in s.db.ledger && s.db.ledger <= Below(5)
    && match s.phase
       case Idle => true
       case Reconciling(k) => k <= 5 && forall f: nat :: f < k ==> f in s.db.ledger
       case Visiting(f) => f <= 5 && s.db.ledger == Below(5)
       case Failed => true
       case _ => false
  }

  lemma {:induction false} UndetectedFails(s: System, i: nat)
    requires Undetected(s, i)
    ensures Completed(s).phase.Failed?
    decreases Remaining(s.phase)
  {
    if !s.phase.Failed? {
      UndetectedStays(s, i);
      UndetectedFails(Advance(s), i);
    }
  }

  lemma UndetectedStays(s: System, i: nat)
    requires Undetected(s, i)
    ensures Undetected(Advance(s), i)
  {
    if s.phase.Reconciling? && s.phase.k <= 4 {
      DetectedExactly(s.db.schema, i, s.phase.k);
    }
    if s.phase.Visiting? && s.phase.f == 5 {
      AppliedMembers(s.db.schema, i);
      SecondDeliveryFails(s.phase.f, s.db.schema);
    }
  }

  lemma SecondDeliveryFails(f: nat, schema: set<Obj>)
    requires f == 5 && DeliveryColumn(0) in schema
    ensures Exec(schema, Statements(f, schema)).None?
  {
    var stmts := Statements(f, schema);
    assert stmts[0] == Add(DeliveryColumn(0), {AnnouncementTable});
  }

  // ---------------------------------------------------------------- cuts inside 001

  /** 001 was cut after its first `p` statements and taken for applied ever since. */
  ghost predicate Stuck(s: System, p: nat) {
    && 0 < p < INIT_SIZE
    && Users in s.db.schema
    && (forall k: nat :: p <= k < INIT_SIZE ==> InitObj(k) !in s.db.schema)
    && match s.phase
       case Idle => true
       case Reconciling(k) => k == 0 || 0 in s.db.ledger
       case Init(_) => false
       case Recording => false
       case _ => 0 in s.db.ledger
  }

  lemma {:induction false} ExecOnlyAdds(schema: set<Obj>, stmts: seq<Stmt>, o: Obj)
    requires o !in schema && forall i :: 0 <= i < |stmts| && !stmts[i].Fill? ==> stmts[i].obj != o
    ensures Exec(schema, stmts).Some? ==> o !in Exec(schema, stmts).value
    decreases |stmts|
  {
    if stmts != [] && stmts[0].needs <= schema && !(stmts[0].Add? && stmts[0].obj in schema) {
      ExecOnlyAdds(if stmts[0].Fill? then schema else schema + {stmts[0].obj}, stmts[1..], o);
    }
  }

  lemma {:induction false} ExecKeeps(schema: set<Obj>, stmts: seq<Stmt>, o: Obj)
    requires o in schema
    ensures Exec(schema, stmts).Some? ==> o in Exec(schema, stmts).value
    decreases |stmts|
  {
    if stmts != [] && stmts[0].needs <= schema && !(stmts[0].Add? && stmts[0].obj in schema) {
      ExecKeeps(if stmts[0].Fill? then schema else schema + {stmts[0].obj}, stmts[1..], o);
    }
  }

  lemma StatementsOfFile(f: nat, schema: set<Obj>)
    requires 0 < f < FILES
    ensures var stmts := Statements(f, schema);
            forall i :: 0 <= i < |stmts| && !stmts[i].Fill? ==> FileOf(stmts[i].obj) == f
  {
  }

  lemma StepKeepsStuck(s: System, e: Event, p: nat)
    requires Stuck(s, p)
    ensures Stuck(Step(s, e), p)
  {
    if e == Commit && s.phase.Visiting? && 0 < s.phase.f < FILES {
      var schema := s.db.schema;
      var stmts := Statements(s.phase.f, schema);
      StatementsOfFile(s.phase.f, schema);
      ExecKeeps(schema, stmts, Users);
      forall k: nat | p <= k < INIT_SIZE ensures Exec(schema, stmts).Some? ==> InitObj(k) !in Exec(schema, stmts).value {
        assert FileOf(InitObj(k)) == 0;
        ExecOnlyAdds(schema, stmts, InitObj(k));
      }
    }
    assert Artifact(0) == Users;
  }

  lemma {:induction false} StuckForever(s: System, run: seq<Event>, p: nat)
    requires Stuck(s, p)
    ensures Stuck(Run(s, run), p) && !Full(Run(s, run).db)
    decreases |run|
  {
    if run == [] {
      assert InitObj(INIT_SIZE - 1) in InitObjs(INIT_SIZE);
      AppliedInit();
      assert InitObj(INIT_SIZE - 1) in Applied(FILES);
    } else {
      StepKeepsStuck(s, run[0], p);
      StuckForever(Step(s, run[0]), run[1..], p);
    }
  }

  /** A run cut inside 001 recovers if and only if the cut left `users` uncreated or left
      nothing to create: otherwise no continuation ever reaches the full schema, since
      the next run finds `users` and records 001 as applied. */
  lemma CutInsideInitExactly(s: System, p: nat)
    requires Good(s) && s.phase == Init(p)
    ensures (exists run: seq<Event> :: Full(Run(Step(s, Cut), run).db)) <==> (p == 0 || p == INIT_SIZE)
  {
    var i: nat :| GoodAt(s, i);
    var cut := Step(s, Cut);
    if p == 0 || p == INIT_SIZE {
      CutKeepsGood(s, i);
      HealthyCompletes(cut);
      var run := CompletingRun(cut);
      assert Full(Run(cut, run).db);
    } else {
      assert Stuck(cut, p) by {
        assert InitObj(0) in InitObjs(p);
      }
      forall run: seq<Event> ensures !Full(Run(cut, run).db) {
        StuckForever(cut, run, p);
      }
    }
  }

  lemma {:induction false} CompletingRun(s: System) returns (run: seq<Event>)
    ensures Run(s, run) == Completed(s)
    decreases Remaining(s.phase)
  {
    if s.phase.Finished? || s.phase.Failed? {
      run := [];
    } else {
      var rest := CompletingRun(Advance(s));
      run := [Commit] + rest;
      assert run[1..] == rest;
    }
  }
}
