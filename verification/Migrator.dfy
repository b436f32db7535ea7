/** Numbered migrations (src/datasources/db/v1/postgres-database.migrator.ts). */
module Migrator {
  import opened Prelude
  import opened Sorting
  import opened Decimal

  datatype Entry = Entry(name: string, isDirectory: bool)

  /** A migration; `path` is the name of its directory. */
  datatype Migration = Migration(path: string, id: nat, name: string)

  datatype Error = NoMigrations | NumberedInconsistency | DatabaseError

  predicate IsDigitText(s: string) {
    forall i :: 0 <= i < |s| ==> '0' <= s[i] <= '9'
  }

  /** The pattern of five digits and an underscore at the start of the name. */
  predicate IsMigration(file: string) {
    |file| >= 6 && IsDigitText(file[..5]) && file[5] == '_'
  }

  function IdOf(file: string): nat
    requires IsMigration(file)
  {
    FromText(file[..5])
  }

  function ToMigration(file: string): (m: Migration)
    requires IsMigration(file)
    ensures m.path == file && file == file[..5] + "_" + m.name
  {
    Migration(file, IdOf(file), file[6..])
  }

  /** The names of the migration directories, in directory order. */
  function Names(folder: seq<Entry>): (names: seq<string>)
    ensures forall n :: n in names <==> IsMigration(n) && Entry(n, true) in folder
  {
    if folder == [] then []
    else
      (if folder[0].isDirectory && IsMigration(folder[0].name) then [folder[0].name] else []) + Names(folder[1..])
  }

  function SortedMigrations(folder: seq<Entry>): (ms: seq<Migration>) {
    var names := Sort(LexLeq, Names(folder));
    seq(|names|, i requires 0 <= i < |names| =>
      if IsMigration(names[i]) then ToMigration(names[i]) else Migration("", 0, ""))
  }

  function GetMigrations(folder: seq<Entry>): Result<seq<Migration>, Error> {
    var ms := SortedMigrations(folder);
    if ms == [] then Err(NoMigrations)
    else if ms[|ms| - 1].id != |ms| then Err(NumberedInconsistency)
    else Ok(ms)
  }

  /** A directory named by five digits, an underscore and any text is a migration with that number and name. */
  lemma NumberedDirectory(id: nat, name: string)
    requires id < 100_000
    ensures IsMigration(Padded(id, 5) + "_" + name)
    ensures ToMigration(Padded(id, 5) + "_" + name) == Migration(Padded(id, 5) + "_" + name, id, name)
  {
    var digits, file := Padded(id, 5), Padded(id, 5) + "_" + name;
    assert file[..5] == digits && file[5] == '_' && file[6..] == name;
    PaddedDigits(id, 5);
    FiveDigits();
    FromPadded(id, 5);
  }

  lemma FiveDigits()
    ensures Pow10(5) == 100_000
  {
    assert Pow10(2) == 100;
  }

  lemma {:induction false} PaddedDigits(n: nat, k: nat)
    ensures IsDigitText(Padded(n, k))
    decreases k
  {
    if k > 0 {
      PaddedDigits(n / 10, k - 1);
    }
  }

  /** And only such directories are. */
  lemma MigrationsAreNumbered(file: string)
    requires IsMigration(file)
    ensures IdOf(file) < 100_000 && file == Padded(IdOf(file), 5) + "_" + file[6..]
  {
    PaddedFrom(file[..5]);
    FiveDigits();
    assert file == file[..5] + "_" + file[6..];
  }

  // ---- the order of names is the order of ids ----

  lemma {:induction false} DigitTextOrder(a: string, b: string)
    requires |a| == |b| && IsDigitText(a) && IsDigitText(b) && LexLeq(a, b) && a != b
    ensures FromText(a) < FromText(b)
    decreases |a|
  {
    assert a != [];
    var n := |a| - 1;
    LastCharDecides(a, b);
    if a[..n] != b[..n] {
      DigitTextOrder(a[..n], b[..n]);
    }
  }

  lemma LastCharDecides(a: string, b: string)
    requires |a| == |b| > 0 && LexLeq(a, b) && a != b
    ensures var n := |a| - 1;
            || (a[..n] != b[..n] && LexLeq(a[..n], b[..n]))
            || (a[..n] == b[..n] && a[n] < b[n])
  {
    var n := |a| - 1;
    SplitLast(a);
    SplitLast(b);
    LexLastOfTwo(a[..n], a[n], b[..n], b[n], a, b);
  }

  lemma SplitLast(s: string)
    requires s != []
    ensures s == s[..|s| - 1] + [s[|s| - 1]]
  {
  }

  lemma LexLastOfTwo(x: string, c: char, y: string, d: char, a: string, b: string)
    requires |x| == |y| && a == x + [c] && b == y + [d] && LexLeq(a, b) && a != b
    ensures (x != y && LexLeq(x, y)) || (x == y && c < d)
  {
    LexLastChar(x, c, y, d);
  }

  lemma {:induction false} LexLeqTake(a: string, b: string, n: nat)
    requires LexLeq(a, b) && n <= |a| && n <= |b|
    ensures LexLeq(a[..n], b[..n])
  {
    if n > 0 && a[0] == b[0] {
      LexLeqTake(a[1..], b[1..], n - 1);
      assert a[..n][1..] == a[1..][..n - 1] && b[..n][1..] == b[1..][..n - 1];
    }
  }

  lemma NameOrderIsIdOrder(a: string, b: string)
    requires IsMigration(a) && IsMigration(b) && LexLeq(a, b)
    ensures IdOf(a) <= IdOf(b)
  {
    LexLeqTake(a, b, 5);
    if a[..5] != b[..5] {
      DigitTextOrder(a[..5], b[..5]);
    }
  }

  lemma LexLeqTotal()
    ensures TotalPreorder(LexLeq)
  {
    forall x, y ensures LexLeq(x, y) || LexLeq(y, x) {
      LexTotal(x, y);
    }
    forall x, y, z | LexLeq(x, y) && LexLeq(y, z) ensures LexLeq(x, z) {
      LexTransitive(x, y, z);
    }
  }

  lemma SortedMigrationsOrdered(folder: seq<Entry>)
    ensures var ms := SortedMigrations(folder);
            && (forall i :: 0 <= i < |ms| ==> IsMigration(ms[i].path) && ms[i] == ToMigration(ms[i].path)
                                              && ms[i].path in Names(folder))
            && (forall n :: n in Names(folder) ==> ToMigration(n) in ms)
            && (forall i, j :: 0 <= i < j < |ms| ==> ms[i].id <= ms[j].id)
            && |ms| == |Names(folder)|
  {
    var names := Sort(LexLeq, Names(folder));
    var ms := SortedMigrations(folder);
    LexLeqTotal();
    SortIsStable(LexLeq, Names(folder));
    SortMembers(LexLeq, Names(folder));
    forall i | 0 <= i < |ms| ensures IsMigration(names[i]) && ms[i] == ToMigration(names[i]) && names[i] in Names(folder) {
      assert names[i] in names;
    }
    forall i, j | 0 <= i < j < |ms| ensures ms[i].id <= ms[j].id {
      NameOrderIsIdOrder(names[i], names[j]);
    }
    forall n | n in Names(folder) ensures ToMigration(n) in ms {
      var i :| 0 <= i < |names| && names[i] == n;
      assert ms[i] == ToMigration(n);
    }
  }

  // ---- the numbering check ----

  /** A folder is accepted if and only if it has migrations and the greatest number is how many there are;
      without any it is refused for that reason. */
  lemma AcceptedIff(folder: seq<Entry>)
    ensures GetMigrations(folder).Ok? <==>
              && Names(folder) != []
              && (forall n :: n in Names(folder) ==> IdOf(n) <= |Names(folder)|)
              && exists n :: n in Names(folder) && IdOf(n) == |Names(folder)|
    ensures GetMigrations(folder) == Err(NoMigrations) <==> Names(folder) == []
  {
    SortedMigrationsOrdered(folder);
    if SortedMigrations(folder) != [] {
      GreatestIsLast(SortedMigrations(folder), Names(folder));
    }
  }

  lemma GreatestIsLast(ms: seq<Migration>, names: seq<string>)
    requires ms != [] && forall n :: n in names ==> IsMigration(n) && ToMigration(n) in ms
    requires forall i :: 0 <= i < |ms| ==> IsMigration(ms[i].path) && ms[i] == ToMigration(ms[i].path) && ms[i].path in names
    requires forall i, j :: 0 <= i < j < |ms| ==> ms[i].id <= ms[j].id
    ensures ms[|ms| - 1].path in names && IdOf(ms[|ms| - 1].path) == ms[|ms| - 1].id
    ensures forall n :: n in names ==> IdOf(n) <= ms[|ms| - 1].id
  {
    forall n | n in names ensures IdOf(n) <= ms[|ms| - 1].id {
      var i :| 0 <= i < |ms| && ms[i] == ToMigration(n);
    }
  }

  /** No two directories carry the same id, and none carries zero. */
  ghost predicate DistinctPositive(ms: seq<Migration>) {
    && (forall i :: 0 <= i < |ms| ==> ms[i].id > 0)
    && (forall i, j :: 0 <= i < j < |ms| ==> ms[i].id != ms[j].id)
  }

  ghost predicate Consecutive(ms: seq<Migration>) {
    forall i :: 0 <= i < |ms| ==> ms[i].id == i + 1
  }

  /** Once the length check passes, the ids are exactly 1 to n if and only if they are distinct and positive. */
  lemma CheckForcesConsecutive(folder: seq<Entry>)
    requires GetMigrations(folder).Ok?
    ensures var ms := GetMigrations(folder).value; Consecutive(ms) <==> DistinctPositive(ms)
  {
    var ms := GetMigrations(folder).value;
    SortedMigrationsOrdered(folder);
    if DistinctPositive(ms) {
      OrderedAreConsecutive(ms);
    }
  }

  lemma OrderedAreConsecutive(ms: seq<Migration>)
    requires DistinctPositive(ms) && ms != [] && ms[|ms| - 1].id == |ms|
    requires forall i, j :: 0 <= i < j < |ms| ==> ms[i].id <= ms[j].id
    ensures Consecutive(ms)
  {
    forall i | 0 <= i < |ms| ensures ms[i].id == i + 1 {
      AtLeast(ms, i);
      AtMost(ms, i);
    }
  }

  lemma {:induction false} AtLeast(ms: seq<Migration>, i: nat)
    requires DistinctPositive(ms) && i < |ms|
    requires forall i, j :: 0 <= i < j < |ms| ==> ms[i].id <= ms[j].id
    ensures ms[i].id >= i + 1
  {
    if i > 0 {
      AtLeast(ms, i - 1);
      assert ms[i - 1].id <= ms[i].id && ms[i - 1].id != ms[i].id;
    }
  }

  lemma {:induction false} AtMost(ms: seq<Migration>, i: nat)
    requires DistinctPositive(ms) && i < |ms| && ms[|ms| - 1].id == |ms|
    requires forall i, j :: 0 <= i < j < |ms| ==> ms[i].id <= ms[j].id
    ensures ms[i].id <= i + 1
    decreases |ms| - i
  {
    if i + 1 < |ms| {
      AtMost(ms, i + 1);
      assert ms[i].id <= ms[i + 1].id && ms[i].id != ms[i + 1].id;
    }
  }

  /** The check alone accepts two directories with the same number. */
  lemma DuplicatesPassTheCheck()
    ensures var folder := [Entry("00002_a", true), Entry("00002_b", true)];
            GetMigrations(folder).Ok? && !Consecutive(GetMigrations(folder).value)
  {
    var a, b := "00002_a", "00002_b";
    NumberedTwo(a);
    NumberedTwo(b);
    TwoNames(a, b);
    var folder := [Entry(a, true), Entry(b, true)];
    SortedMigrationsOrdered(folder);
    var ms := SortedMigrations(folder);
    assert ms[0].path in [a, b] && ms[1].path in [a, b];
  }

  lemma TwoNames(a: string, b: string)
    requires IsMigration(a) && IsMigration(b)
    ensures Names([Entry(a, true), Entry(b, true)]) == [a, b]
  {
    var folder := [Entry(a, true), Entry(b, true)];
    assert folder[1..] == [Entry(b, true)] && folder[1..][1..] == [];
    assert Names(folder[1..]) == [b];
  }

  lemma NumberedTwo(file: string)
    requires file == "00002_a" || file == "00002_b"
    ensures IsMigration(file) && IdOf(file) == 2
  {
    assert file[..5] == "0000" + ['2'];
    Zeros("0000");
    FromTextSnoc("0000", '2');
  }

  lemma {:induction false} Zeros(s: string)
    requires forall i :: 0 <= i < |s| ==> s[i] == '0'
    ensures FromText(s) == 0
  {
    if s != [] {
      Zeros(s[..|s| - 1]);
    }
  }

  // ---- running ----

  function LastId(rows: seq<Migration>): nat {
    if rows == [] then 0
    else
      var before := LastId(rows[..|rows| - 1]);
      if rows[|rows| - 1].id > before then rows[|rows| - 1].id else before
  }

  /** `migrations.slice(last?.id ?? 0)`. */
  function Remaining(ms: seq<Migration>, rows: seq<Migration>): seq<Migration> {
    if LastId(rows) <= |ms| then ms[LastId(rows)..] else []
  }

  predicate HasId(rows: seq<Migration>, id: nat) {
    exists k :: 0 <= k < |rows| && rows[k].id == id
  }

  /** The migrations of `todo` can be inserted one after the other: the id is the table's primary key. */
  predicate Insertable(rows: seq<Migration>, todo: seq<Migration>)
    decreases |todo|
  {
    todo == [] || (!HasId(rows, todo[0].id) && Insertable(rows + [todo[0]], todo[1..]))
  }

  lemma {:induction false} ConsecutiveInsertable(rows: seq<Migration>, todo: seq<Migration>)
    requires Consecutive(rows + todo)
    ensures Insertable(rows, todo)
    decreases |todo|
  {
    if todo != [] {
      var all := rows + todo;
      assert all == rows + [todo[0]] + todo[1..];
      ConsecutiveInsertable(rows + [todo[0]], todo[1..]);
      assert forall k :: 0 <= k < |rows| ==> rows[k] == all[k];
      assert all[|rows|] == todo[0];
    }
  }

  /** A list can be recorded if and only if none of its ids is taken, in the table or earlier in the list. */
  lemma {:induction false} InsertableIff(rows: seq<Migration>, todo: seq<Migration>)
    ensures Insertable(rows, todo) <==>
              && (forall i, k :: 0 <= i < |todo| && 0 <= k < |rows| ==> todo[i].id != rows[k].id)
              && forall i, j :: 0 <= i < j < |todo| ==> todo[i].id != todo[j].id
    decreases |todo|
  {
    if todo != [] {
      var more, rest := rows + [todo[0]], todo[1..];
      InsertableIff(more, rest);
      assert forall k :: 0 <= k < |rows| ==> more[k] == rows[k];
      assert more[|rows|] == todo[0];
      assert forall i :: 0 < i < |todo| ==> todo[i] == rest[i - 1];
      forall i | 0 < i < |todo| && Insertable(more, rest)
        ensures todo[i].id != todo[0].id && forall k :: 0 <= k < |rows| ==> todo[i].id != rows[k].id
      {
        assert rest[i - 1].id != more[|rows|].id;
        assert forall k :: 0 <= k < |rows| ==> rest[i - 1].id != more[k].id;
      }
    }
  }

  lemma {:induction false} InsertableStep(rows: seq<Migration>, todo: seq<Migration>, i: nat)
    requires i < |todo|
    ensures Insertable(rows + todo[..i], todo[i..]) <==>
            !HasId(rows + todo[..i], todo[i].id) && Insertable(rows + todo[..i + 1], todo[i + 1..])
    ensures rows + todo[..i] + [todo[i]] == rows + todo[..i + 1]
  {
    assert todo[i..][1..] == todo[i + 1..];
    assert rows + todo[..i] + [todo[i]] == rows + todo[..i + 1];
  }

  /** Whether a transaction running `todo` on the table `rows` commits. */
  predicate Commits(rows: seq<Migration>, todo: seq<Migration>, failsAt: Option<nat>) {
    Insertable(rows, todo) && (failsAt.None? || failsAt.value >= |todo|)
  }

  /** The migrations table, and what has been run on the database, in order. */
  datatype Database = Database(rows: seq<Migration>, effects: seq<Migration>)

  datatype Attempt = Attempt(folder: seq<Entry>, failsAt: Option<nat>)

  /** What one `Migrate` leaves. */
  function After(db: Database, a: Attempt): Database {
    match GetMigrations(a.folder)
    case Err(_) => db
    case Ok(ms) =>
      var todo := Remaining(ms, db.rows);
      if Commits(db.rows, todo, a.failsAt) then Database(db.rows + todo, db.effects + todo) else db
  }

  class PostgresDatabaseMigrator {
    var rows: seq<Migration>
    var effects: seq<Migration>

    constructor ()
      ensures View() == Database([], [])
    {
      rows, effects := [], [];
    }

    function View(): Database
      reads this
    {
      Database(rows, effects)
    }

    /** The body of the transaction, on its own view of the table and the database. */
    method RunAll(remaining: seq<Migration>, failsAt: Option<nat>)
      returns (commits: bool, newRows: seq<Migration>, newEffects: seq<Migration>)
      ensures commits <==> Commits(rows, remaining, failsAt)
      ensures commits ==> newRows == rows + remaining && newEffects == effects + remaining
    {
      newRows, newEffects := rows, effects;
      assert rows + remaining[..0] == rows && effects + remaining[..0] == effects && remaining[0..] == remaining;
      for i := 0 to |remaining|
        invariant newRows == rows + remaining[..i] && newEffects == effects + remaining[..i]
        invariant Insertable(rows, remaining) <==> Insertable(newRows, remaining[i..])
        invariant failsAt.None? || failsAt.value >= i
      {
        var current := remaining[i];
        InsertableStep(rows, remaining, i);
        if failsAt == Some(i) {
          return false, newRows, newEffects;
        }
        newEffects := newEffects + [current];
        if HasId(newRows, current.id) {
          return false, newRows, newEffects;
        }
        newRows := newRows + [current];
        assert effects + remaining[..i] + [current] == effects + remaining[..i + 1];
      }
      commits := true;
      assert remaining[..|remaining|] == remaining && remaining[|remaining|..] == [];
    }

    /** `failsAt`: which of the migrations to run throws, if any. */
    method Migrate(folder: seq<Entry>, failsAt: Option<nat>) returns (r: Result<seq<Migration>, Error>)
      modifies this
      ensures View() == After(old(View()), Attempt(folder, failsAt))
      ensures match GetMigrations(folder)
              case Err(e) => r == Err(e)
              case Ok(ms) =>
                var todo := Remaining(ms, old(rows));
                r == if Commits(old(rows), todo, failsAt) then Ok(todo) else Err(DatabaseError)
      ensures r.Ok? ==> rows == old(rows) + r.value && effects == old(effects) + r.value
      ensures r.Err? ==> rows == old(rows) && effects == old(effects)
      ensures GetMigrations(folder).Ok? ==>
                var todo := Remaining(GetMigrations(folder).value, old(rows));
                r.Ok? <==>
                  && (failsAt == None || failsAt.value >= |todo|)
                  && (forall i, k :: 0 <= i < |todo| && 0 <= k < |old(rows)| ==> todo[i].id != old(rows)[k].id)
                  && forall i, j :: 0 <= i < j < |todo| ==> todo[i].id != todo[j].id
    {
      var migrations := GetMigrations(folder);
      if migrations.Err? {
        return Err(migrations.error);
      }
      var remaining := Remaining(migrations.value, rows);
      InsertableIff(rows, remaining);
      var commits, newRows, newEffects := RunAll(remaining, failsAt);
      if !commits {
        return Err(DatabaseError);
      }
      rows, effects := newRows, newEffects;
      return Ok(remaining);
    }
  }

  // ---- many runs on a growing folder ----

  function Run(attempts: seq<Attempt>): Database {
    if attempts == [] then Database([], [])
    else After(Run(attempts[..|attempts| - 1]), attempts[|attempts| - 1])
  }

  ghost predicate WellNumbered(folder: seq<Entry>) {
    DistinctPositive(SortedMigrations(folder))
  }

  /** Every folder is well numbered and contains the one before it. */
  ghost predicate Growing(attempts: seq<Attempt>) {
    && (forall i :: 0 <= i < |attempts| ==> WellNumbered(attempts[i].folder))
    && (forall i :: 0 < i < |attempts| ==> forall e :: e in attempts[i - 1].folder ==> e in attempts[i].folder)
  }

  /** The table holds 1 to k, each the migration the folder has under that number. */
  ghost predicate PrefixOf(rows: seq<Migration>, folder: seq<Entry>) {
    && Consecutive(rows)
    && forall i :: 0 <= i < |rows| ==> rows[i] in SortedMigrations(folder)
  }

  lemma {:induction false} LastIdOfConsecutive(rows: seq<Migration>)
    requires Consecutive(rows)
    ensures LastId(rows) == |rows|
    decreases |rows|
  {
    if rows != [] {
      LastIdOfConsecutive(rows[..|rows| - 1]);
    }
  }

  lemma PrefixIsTake(rows: seq<Migration>, folder: seq<Entry>)
    requires PrefixOf(rows, folder) && WellNumbered(folder) && GetMigrations(folder).Ok?
    ensures |rows| <= |GetMigrations(folder).value| && rows == GetMigrations(folder).value[..|rows|]
  {
    var ms := GetMigrations(folder).value;
    forall i: nat | i < |rows| ensures i < |ms| && rows[i] == ms[i] {
      RowIsInPlace(rows, folder, i);
    }
    if rows != [] {
      RowIsInPlace(rows, folder, |rows| - 1);
    }
  }

  lemma RowIsInPlace(rows: seq<Migration>, folder: seq<Entry>, i: nat)
    requires PrefixOf(rows, folder) && WellNumbered(folder) && GetMigrations(folder).Ok? && i < |rows|
    ensures i < |GetMigrations(folder).value| && rows[i] == GetMigrations(folder).value[i]
  {
    var ms := GetMigrations(folder).value;
    CheckForcesConsecutive(folder);
    assert rows[i] in ms;
    var j :| 0 <= j < |ms| && ms[j] == rows[i];
  }

  /** A slice by the last run id leaves exactly the migrations that have not run. */
  lemma RemainingIsTheRest(rows: seq<Migration>, folder: seq<Entry>)
    requires PrefixOf(rows, folder) && WellNumbered(folder) && GetMigrations(folder).Ok?
    ensures var ms := GetMigrations(folder).value;
            && rows + Remaining(ms, rows) == ms
            && Insertable(rows, Remaining(ms, rows))
            && forall m :: m in Remaining(ms, rows) <==> m in ms && m !in rows
  {
    var ms := GetMigrations(folder).value;
    PrefixIsTake(rows, folder);
    LastIdOfConsecutive(rows);
    CheckForcesConsecutive(folder);
    ConsecutiveRest(ms, |rows|);
  }

  lemma ConsecutiveRest(ms: seq<Migration>, k: nat)
    requires Consecutive(ms) && k <= |ms|
    ensures ms[..k] + ms[k..] == ms && Insertable(ms[..k], ms[k..])
    ensures forall m :: m in ms[k..] <==> m in ms && m !in ms[..k]
  {
    assert ms[..k] + ms[k..] == ms;
    ConsecutiveInsertable(ms[..k], ms[k..]);
    TailMembers(ms, k);
  }

  lemma TailMembers(ms: seq<Migration>, k: nat)
    requires Consecutive(ms) && k <= |ms|
    ensures forall m :: m in ms[k..] <==> m in ms && m !in ms[..k]
  {
    assert ms == ms[..k] + ms[k..];
    forall m | m in ms[k..] ensures m !in ms[..k] {
      assert m.id > k;
    }
  }

  lemma GrowingKeepsPrefix(rows: seq<Migration>, earlier: seq<Entry>, later: seq<Entry>)
    requires PrefixOf(rows, earlier) && forall e :: e in earlier ==> e in later
    ensures PrefixOf(rows, later)
  {
    SortedMigrationsOrdered(earlier);
    SortedMigrationsOrdered(later);
    forall i | 0 <= i < |rows| ensures rows[i] in SortedMigrations(later) {
      var j :| 0 <= j < |SortedMigrations(earlier)| && SortedMigrations(earlier)[j] == rows[i];
      assert rows[i].path in Names(earlier);
      assert rows[i].path in Names(later);
      assert ToMigration(rows[i].path) in SortedMigrations(later);
    }
  }

  lemma AttemptKeepsPrefix(db: Database, a: Attempt)
    requires PrefixOf(db.rows, a.folder) && WellNumbered(a.folder)
    ensures PrefixOf(After(db, a).rows, a.folder)
    ensures GetMigrations(a.folder).Ok? && a.failsAt.None? ==> After(db, a).rows == GetMigrations(a.folder).value
  {
    if GetMigrations(a.folder).Ok? {
      RemainingIsTheRest(db.rows, a.folder);
      CheckForcesConsecutive(a.folder);
    }
  }

  /** What has been run on the database is what the table records, in the same order, after any runs. */
  lemma {:induction false} EffectsAreTheTable(attempts: seq<Attempt>)
    ensures Run(attempts).effects == Run(attempts).rows
    decreases |attempts|
  {
    if attempts != [] {
      EffectsAreTheTable(attempts[..|attempts| - 1]);
    }
  }

  /**
   * After any sequence of runs on a growing folder, rolled back ones included, the table holds
   * 1 to k and nothing else, each exactly the folder's migration of that number, and exactly these
   * have been run on the database: each once, in the order of the ids.
   */
  lemma {:induction false} TableIsAPrefix(attempts: seq<Attempt>)
    requires attempts != [] && Growing(attempts)
    ensures PrefixOf(Run(attempts).rows, attempts[|attempts| - 1].folder)
    ensures Run(attempts).effects == Run(attempts).rows
    decreases |attempts|
  {
    var before, last := attempts[..|attempts| - 1], attempts[|attempts| - 1];
    if before != [] {
      TableIsAPrefix(before);
      GrowingKeepsPrefix(Run(before).rows, before[|before| - 1].folder, last.folder);
    }
    AttemptKeepsPrefix(Run(before), last);
    EffectsAreTheTable(attempts);
  }

  /** Nothing a run has committed is ever taken back, run again or reordered by a later one. */
  lemma {:induction false} CommittedStays(attempts: seq<Attempt>, more: seq<Attempt>)
    ensures Run(attempts).rows <= Run(attempts + more).rows
    ensures Run(attempts).effects <= Run(attempts + more).effects
    decreases |more|
  {
    if more == [] {
      assert attempts + more == attempts;
    } else {
      assert (attempts + more)[..|attempts + more| - 1] == attempts + more[..|more| - 1];
      CommittedStays(attempts, more[..|more| - 1]);
    }
  }
}
