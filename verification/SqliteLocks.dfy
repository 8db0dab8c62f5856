/** The SQLite lock table: sixteen open files, five lock levels, one rule set per path. */
module SqliteLocks {
  import opened Bytes

  // Lock levels: 0 none, 1 shared, 2 reserved, 3 pending, 4 exclusive.

  datatype Code = SqliteOk | Busy | CantOpen | IoErrUnlock | IoErrClose

  datatype File = File(path: string, level: int)

  /** The table as values; an open file is known by its slot. */
  type Table = seq<Option<File>>

  /** What a request by one file makes of another's level. */
  predicate Blocks(requested: int, level: int) {
    if requested == 1 then level >= 3
    else if requested == 2 then level >= 2
    else if requested == 3 then level >= 3
    else requested == 4 && level != 0
  }

  /** Slots `i` and `j` hold different open files of one path. */
  predicate Rivals(t: Table, i: nat, j: nat) {
    i < |t| && j < |t| && i != j && t[i].Some? && t[j].Some? && t[i].value.path == t[j].value.path
  }

  ghost predicate Conflict(t: Table, i: nat, requested: int) {
    exists j: nat :: Rivals(t, i, j) && Blocks(requested, t[j].value.level)
  }

  predicate IsOpen(t: Table, i: nat) {
    i < |t| && t[i].Some?
  }

  function SetLevel(t: Table, i: nat, level: int): (r: Table)
    requires IsOpen(t, i)
  {
    t[i := Some(t[i].value.(level := level))]
  }

  ghost function Lock(t: Table, i: nat, requested: int): (r: (Table, Code))
    requires IsOpen(t, i)
  {
    if requested <= t[i].value.level then (t, SqliteOk)
    else if Conflict(t, i, requested) then (t, Busy)
    else (SetLevel(t, i, requested), SqliteOk)
  }

  function Unlock(t: Table, i: nat, requested: int): (r: (Table, Code))
    requires IsOpen(t, i)
  {
    if requested < 0 || requested > t[i].value.level then (t, IoErrUnlock) else (SetLevel(t, i, requested), SqliteOk)
  }

  /** First empty slot, or the table's size. */
  function FirstEmpty(t: Table): (i: nat)
    ensures i <= |t| && (i < |t| ==> t[i].None?) && forall k :: 0 <= k < i ==> t[k].Some?
  {
    if t == [] || t[0].None? then 0 else 1 + FirstEmpty(t[1..])
  }

  function Register(t: Table, path: string): (r: (Table, Code)) {
    var i := FirstEmpty(t);
    if i < |t| then (t[i := Some(File(path, 0))], SqliteOk) else (t, CantOpen)
  }

  // ---------------------------------------------------------------------------------------------
  // Exclusion

  predicate Compatible(a: int, b: int) {
    !(a >= 3 && b >= 3) && (a == 4 ==> b == 0) && (b == 4 ==> a == 0)
  }

  /** On each path one file at most is at pending or above, and an exclusive lock stands alone. */
  ghost predicate Exclusion(t: Table) {
    && (forall i: nat :: IsOpen(t, i) ==> 0 <= t[i].value.level <= 4)
    && (forall i: nat, j: nat :: Rivals(t, i, j) ==> Compatible(t[i].value.level, t[j].value.level))
  }

  /** On each path one file at most is at reserved or above. */
  ghost predicate OneWriter(t: Table) {
    forall i: nat, j: nat :: Rivals(t, i, j) ==> !(t[i].value.level >= 2 && t[j].value.level >= 2)
  }

  datatype Step = DoOpen(path: string) | DoClose(slot: nat) | DoLock(slot: nat, requested: int) | DoUnlock(slot: nat, requested: int)

  /** Calls go to open files, and locks ask for one of the five levels. */
  predicate Allowed(t: Table, step: Step) {
    match step
    case DoOpen(_) => true
    case DoClose(i) => IsOpen(t, i)
    case DoLock(i, requested) => IsOpen(t, i) && 0 <= requested <= 4
    case DoUnlock(i, _) => IsOpen(t, i)
  }

  ghost function Next(t: Table, step: Step): (r: Table)
    requires Allowed(t, step)
  {
    match step
    case DoOpen(path) => Register(t, path).0
    case DoClose(i) => t[i := None]
    case DoLock(i, requested) => Lock(t, i, requested).0
    case DoUnlock(i, requested) => Unlock(t, i, requested).0
  }

  /** A file below reserved is granted pending while another holds reserved. */
  ghost predicate Jumps(t: Table, step: Step) {
    && step.DoLock? && step.requested == 3 && IsOpen(t, step.slot) && t[step.slot].value.level < 2
    && !Conflict(t, step.slot, 3) && Conflict(t, step.slot, 2)
  }

  lemma StepKeeps(t: Table, step: Step)
    requires Exclusion(t) && Allowed(t, step)
    ensures Exclusion(Next(t, step)) && |Next(t, step)| == |t|
  {
    var after := Next(t, step);
    match step
    case DoLock(i, requested) =>
      forall a: nat, b: nat | Rivals(after, a, b) ensures Compatible(after[a].value.level, after[b].value.level) {
        assert Rivals(t, a, b) && Rivals(t, b, a);
      }
    case DoUnlock(i, requested) =>
      forall a: nat, b: nat | Rivals(after, a, b) ensures Compatible(after[a].value.level, after[b].value.level) {
        assert Rivals(t, a, b);
      }
    case DoClose(i) =>
      forall a: nat, b: nat | Rivals(after, a, b) ensures Compatible(after[a].value.level, after[b].value.level) {
        assert Rivals(t, a, b);
      }
    case DoOpen(path) =>
      var i := FirstEmpty(t);
      forall a: nat, b: nat | Rivals(after, a, b) ensures Compatible(after[a].value.level, after[b].value.level) {
        if a != i && b != i {
          assert Rivals(t, a, b);
        }
      }
  }

  /** One writer per path survives a step exactly when the step does not jump to pending over another
      file's reserved lock. */
  lemma OneWriterIff(t: Table, step: Step)
    requires Exclusion(t) && OneWriter(t) && Allowed(t, step)
    ensures OneWriter(Next(t, step)) <==> !Jumps(t, step)
  {
    var after := Next(t, step);
    if Jumps(t, step) {
      var j: nat :| Rivals(t, step.slot, j) && Blocks(2, t[j].value.level);
      assert Rivals(after, step.slot, j);
    } else {
      forall a: nat, b: nat | Rivals(after, a, b) ensures !(after[a].value.level >= 2 && after[b].value.level >= 2) {
        Undisturbed(t, step, a, b);
      }
    }
  }

  lemma Undisturbed(t: Table, step: Step, a: nat, b: nat)
    requires Exclusion(t) && OneWriter(t) && Allowed(t, step) && !Jumps(t, step) && Rivals(Next(t, step), a, b)
    ensures !(Next(t, step)[a].value.level >= 2 && Next(t, step)[b].value.level >= 2)
  {
    if !step.DoOpen? || (a != FirstEmpty(t) && b != FirstEmpty(t)) {
      assert Rivals(t, a, b) && Rivals(t, b, a);
    }
  }

  ghost predicate StepAt(tables: seq<Table>, steps: seq<Step>, k: nat) {
    k + 1 < |tables| && k < |steps| && Allowed(tables[k], steps[k]) && tables[k + 1] == Next(tables[k], steps[k])
  }

  ghost predicate IsRun(tables: seq<Table>, steps: seq<Step>) {
    && |tables| == |steps| + 1 && tables[0] == seq(16, i => None)
    && forall k :: 0 <= k < |steps| ==> StepAt(tables, steps, k)
  }

  /** Exclusion holds in every state of every run. */
  lemma {:induction false} EveryRunExcludes(tables: seq<Table>, steps: seq<Step>, k: nat)
    requires IsRun(tables, steps) && k < |tables|
    ensures Exclusion(tables[k]) && |tables[k]| == 16
  {
    hide Allowed, Next, Exclusion;
    if k == 0 {
      EmptyIsExclusive(tables[0]);
    } else {
      EveryRunExcludes(tables, steps, k - 1);
      assert StepAt(tables, steps, k - 1);
      StepKeeps(tables[k - 1], steps[k - 1]);
    }
  }

  lemma EmptyIsExclusive(t: Table)
    requires forall i :: 0 <= i < |t| ==> t[i].None?
    ensures Exclusion(t) && OneWriter(t)
  {
  }

  /** A run has one writer per path throughout exactly when none of its steps jumps. */
  lemma RunHasOneWriterIff(tables: seq<Table>, steps: seq<Step>)
    requires IsRun(tables, steps)
    ensures (forall k :: 0 <= k < |tables| ==> OneWriter(tables[k])) <==>
      (forall k :: 0 <= k < |steps| ==> !Jumps(tables[k], steps[k]))
  {
    hide Allowed, Next, Exclusion, OneWriter, Jumps;
    if forall k :: 0 <= k < |steps| ==> !Jumps(tables[k], steps[k]) {
      var n := |tables| - 1;
      forall k | 0 <= k < |tables| ensures OneWriter(tables[k]) {
        WriterUpTo(tables, steps, k);
      }
    }
    if forall k :: 0 <= k < |tables| ==> OneWriter(tables[k]) {
      forall k | 0 <= k < |steps| ensures !Jumps(tables[k], steps[k]) {
        assert StepAt(tables, steps, k);
        EveryRunExcludes(tables, steps, k);
        OneWriterIff(tables[k], steps[k]);
      }
    }
  }

  lemma {:induction false} WriterUpTo(tables: seq<Table>, steps: seq<Step>, k: nat)
    requires IsRun(tables, steps) && k < |tables| && forall m :: 0 <= m < |steps| ==> !Jumps(tables[m], steps[m])
    ensures OneWriter(tables[k])
  {
    hide Allowed, Next, Exclusion, OneWriter, Jumps;
    if k == 0 {
      EmptyIsExclusive(tables[0]);
    } else {
      WriterUpTo(tables, steps, k - 1);
      assert StepAt(tables, steps, k - 1);
      EveryRunExcludes(tables, steps, k - 1);
      OneWriterIff(tables[k - 1], steps[k - 1]);
    }
  }

  /** Two files of one path at the given levels, and nothing else open. */
  ghost function Pair(path: string, a: int, b: int): (t: Table)
    ensures |t| == 16 && t[0] == Some(File(path, a)) && t[1] == Some(File(path, b)) && forall i :: 2 <= i < 16 ==> t[i] == None
  {
    [Some(File(path, a)), Some(File(path, b))] + seq(14, i => None)
  }

  /** Such a jump is reached: two readers, one reserves, the other asks for pending. */
  lemma JumpIsReached(path: string) returns (tables: seq<Table>, steps: seq<Step>)
    ensures IsRun(tables, steps) && |steps| == 6 && Jumps(tables[5], steps[5]) && !OneWriter(tables[6])
  {
    var t0: Table := seq(16, i => None);
    var t1 := t0[0 := Some(File(path, 0))];
    assert Register(t0, path).0 == t1;
    var t2 := Pair(path, 0, 0);
    OpensSecond(t1, path);
    var t3, t4, t5 := Pair(path, 1, 0), Pair(path, 1, 1), Pair(path, 1, 2);
    PairLock(path, 0, 0, 0, 1);
    PairLock(path, 1, 0, 1, 1);
    PairLock(path, 1, 1, 1, 2);
    PairLock(path, 1, 2, 0, 3);
    tables := [t0, t1, t2, t3, t4, t5, Pair(path, 3, 2)];
    steps := [DoOpen(path), DoOpen(path), DoLock(0, 1), DoLock(1, 1), DoLock(1, 2), DoLock(0, 3)];
    assert Rivals(t5, 0, 1) && Blocks(2, t5[1].value.level);
    assert Rivals(tables[6], 0, 1);
    hide Next, Allowed, Register, Lock;
    forall k | 0 <= k < 6 ensures StepAt(tables, steps, k) {
      StepsAre(tables, steps, k, path);
    }
  }

  lemma OpensSecond(t1: Table, path: string)
    requires |t1| == 16 && t1[0] == Some(File(path, 0)) && forall i :: 1 <= i < 16 ==> t1[i] == None
    ensures Register(t1, path).0 == Pair(path, 0, 0)
  {
    FirstEmptyIs(t1, 1);
  }

  /** A lock granted to one of a pair. */
  lemma PairLock(path: string, a: int, b: int, i: nat, requested: int)
    requires i < 2 && requested > (if i == 0 then a else b) && !Blocks(requested, if i == 0 then b else a)
    ensures IsOpen(Pair(path, a, b), i) && !Conflict(Pair(path, a, b), i, requested)
    ensures Lock(Pair(path, a, b), i, requested).0 == if i == 0 then Pair(path, requested, b) else Pair(path, a, requested)
  {
    var t := Pair(path, a, b);
    assert SetLevel(t, i, requested) == if i == 0 then Pair(path, requested, b) else Pair(path, a, requested);
  }

  lemma StepsAre(tables: seq<Table>, steps: seq<Step>, k: nat, path: string)
    requires |tables| == 7 && |steps| == 6 && k < 6
    requires tables[0] == seq(16, i => None) && Register(tables[0], path).0 == tables[1]
    requires Register(tables[1], path).0 == tables[2] == Pair(path, 0, 0)
    requires tables[3] == Pair(path, 1, 0) && tables[4] == Pair(path, 1, 1) && tables[5] == Pair(path, 1, 2) && tables[6] == Pair(path, 3, 2)
    requires Lock(tables[2], 0, 1).0 == tables[3] && Lock(tables[3], 1, 1).0 == tables[4]
    requires Lock(tables[4], 1, 2).0 == tables[5] && Lock(tables[5], 0, 3).0 == tables[6]
    requires steps == [DoOpen(path), DoOpen(path), DoLock(0, 1), DoLock(1, 1), DoLock(1, 2), DoLock(0, 3)]
    ensures StepAt(tables, steps, k)
  {
    hide Lock, Register;
  }

  // ---------------------------------------------------------------------------------------------
  // What is granted, and what is kept

  /** Every rival of slot `i` is at most at `level`. */
  ghost predicate RivalsAtMost(t: Table, i: nat, level: int) {
    forall j: nat :: Rivals(t, i, j) ==> t[j].value.level <= level
  }

  /** A request above the file's level is granted exactly when its rivals allow it: SHARED beside
      RESERVED, RESERVED beside SHARED, PENDING beside RESERVED, EXCLUSIVE beside nothing. A granted
      request leaves exactly the level asked for; no other slot changes, and nothing on a refusal. */
  lemma LockGrantedIff(t: Table, i: nat, requested: int)
    requires Exclusion(t) && IsOpen(t, i) && 0 <= requested <= 4
    ensures
      var (after, code) := Lock(t, i, requested);
      && code in {SqliteOk, Busy} && (code == Busy ==> after == t)
      && (code == SqliteOk <==>
            || requested <= t[i].value.level
            || (requested == 1 && RivalsAtMost(t, i, 2))
            || (requested == 2 && RivalsAtMost(t, i, 1))
            || (requested == 3 && RivalsAtMost(t, i, 2))
            || (requested == 4 && RivalsAtMost(t, i, 0)))
      && (code == SqliteOk ==>
            && IsOpen(after, i) && after[i].value.path == t[i].value.path
            && after[i].value.level == (if requested <= t[i].value.level then t[i].value.level else requested)
            && forall j: nat :: j < |t| && j != i ==> after[j] == t[j])
  {
    var held := t[i].value.level;
    if requested > held && Conflict(t, i, requested) {
      var j: nat :| Rivals(t, i, j) && Blocks(requested, t[j].value.level);
      assert 0 <= t[j].value.level;
    }
    if requested > held && !Conflict(t, i, requested) {
      forall j: nat | Rivals(t, i, j) ensures !Blocks(requested, t[j].value.level) {
      }
    }
  }

  /** An unlock is granted exactly down to a level between none and the file's own, and leaves that
      level; no other slot changes, and nothing on a refusal. */
  lemma UnlockGrantedIff(t: Table, i: nat, requested: int)
    requires IsOpen(t, i)
    ensures
      var (after, code) := Unlock(t, i, requested);
      && (code == SqliteOk <==> 0 <= requested <= t[i].value.level)
      && (code != SqliteOk ==> code == IoErrUnlock && after == t)
      && (code == SqliteOk ==>
            after == t[i := Some(File(t[i].value.path, requested))])
  {
  }

  /** After a granted unlock to SHARED or above no rival gets EXCLUSIVE, and after one to RESERVED or
      above none gets RESERVED; the file still has every level up to the kept one. */
  lemma UnlockKeepsLevel(t: Table, i: nat, requested: int, j: nat, other: int)
    requires Exclusion(t) && IsOpen(t, i) && 1 <= requested <= t[i].value.level && Rivals(t, i, j)
    ensures
      var after := Unlock(t, i, requested).0;
      && Rivals(after, j, i) && after[j] == t[j]
      && (after[j].value.level < 4 ==> Lock(after, j, 4) == (after, Busy))
      && (2 <= requested && after[j].value.level < 2 ==> Lock(after, j, 2) == (after, Busy))
      && (3 <= requested && after[j].value.level < 1 ==> Lock(after, j, 1) == (after, Busy))
      && (0 <= other <= requested ==> Lock(after, i, other) == (after, SqliteOk))
  {
    var after := Unlock(t, i, requested).0;
    assert Rivals(after, j, i) && after[i].value.level == requested;
    assert Blocks(4, requested) && (2 <= requested ==> Blocks(2, requested)) && (3 <= requested ==> Blocks(1, requested));
  }

  /** The step neither closes slot `i` nor unlocks it below `level`. */
  predicate Spares(step: Step, i: nat, level: int) {
    && !(step.DoClose? && step.slot == i)
    && !(step.DoUnlock? && step.slot == i && 0 <= step.requested < level)
  }

  lemma StepSpares(t: Table, step: Step, i: nat, level: int)
    requires Exclusion(t) && Allowed(t, step) && IsOpen(t, i) && level <= t[i].value.level && Spares(step, i, level)
    ensures IsOpen(Next(t, step), i) && Next(t, step)[i].value.path == t[i].value.path && level <= Next(t, step)[i].value.level
  {
    match step
    case DoLock(k, requested) => LockGrantedIff(t, k, requested);
    case DoUnlock(k, requested) => UnlockGrantedIff(t, k, requested);
    case DoOpen(_) =>
    case DoClose(_) =>
  }

  /** Over every run: a file that holds a level and is neither closed nor unlocked below it still holds
      that level or a higher one. */
  lemma {:induction false} LevelIsKept(tables: seq<Table>, steps: seq<Step>, i: nat, level: int, a: nat, b: nat)
    requires IsRun(tables, steps) && a <= b < |tables| && IsOpen(tables[a], i) && level <= tables[a][i].value.level
    requires forall k :: a <= k < b ==> Spares(steps[k], i, level)
    ensures IsOpen(tables[b], i) && tables[b][i].value.path == tables[a][i].value.path && level <= tables[b][i].value.level
    decreases b
  {
    hide Allowed, Next, Exclusion, Spares;
    if a < b {
      LevelIsKept(tables, steps, i, level, a, b - 1);
      assert StepAt(tables, steps, b - 1);
      EveryRunExcludes(tables, steps, b - 1);
      StepSpares(tables[b - 1], steps[b - 1], i, level);
    }
  }

  /** A step changes one slot at most; closing empties it, whatever was held. */
  lemma StepChanges(t: Table, step: Step)
    requires Exclusion(t) && Allowed(t, step)
    ensures
      var after := Next(t, step);
      match step
      case DoOpen(path) => after == Register(t, path).0
      case DoClose(i) => after[i] == None && forall j: nat :: j < |t| && j != i ==> after[j] == t[j]
      case DoLock(i, requested) => after == Lock(t, i, requested).0
      case DoUnlock(i, requested) => after == Unlock(t, i, requested).0
  {
  }

  /** A file is opened exactly when a slot is empty: into the first such slot, unlocked. */
  lemma RegisteredIff(t: Table, path: string)
    ensures
      var (after, code) := Register(t, path);
      && (code == SqliteOk <==> exists i :: 0 <= i < |t| && t[i].None?)
      && (code != SqliteOk ==> code == CantOpen && after == t)
      && (code == SqliteOk ==> exists i: nat :: i < |t| && t[i].None? && after == t[i := Some(File(path, 0))])
  {
    var i := FirstEmpty(t);
  }

  // ---------------------------------------------------------------------------------------------
  // The table in memory

  class SqliteFile {
    var path: string
    var lockLevel: int
    var descriptor: int
    var deleteOnClose: bool

    constructor ()
    {
      path, lockLevel, descriptor, deleteOnClose := "", 0, 0, false;
    }
  }

  ghost function Entry(f: SqliteFile?): (e: Option<File>)
    reads f
  {
    if f == null then None else Some(File(f.path, f.lockLevel))
  }

  ghost function Entries(files: seq<SqliteFile?>): (t: Table)
    reads set f | f in files
    ensures |t| == |files| && forall i :: 0 <= i < |files| ==> t[i] == Entry(files[i])
  {
    if files == [] then [] else [Entry(files[0])] + Entries(files[1..])
  }

  class Registry {
    const openFiles: array<SqliteFile?>

    ghost predicate Valid()
      reads this, openFiles
    {
      && openFiles.Length == 16
      && forall i, j :: 0 <= i < j < 16 && openFiles[i] != null ==> openFiles[i] != openFiles[j]
    }

    ghost function View(): (t: Table)
      reads this, openFiles, set f | f in openFiles[..]
    {
      Entries(openFiles[..])
    }

    constructor ()
      ensures Valid() && View() == seq(16, i => None) && fresh(openFiles)
    {
      openFiles := new SqliteFile?[16](i => null);
    }

    method RegisterFile(file: SqliteFile) returns (code: Code)
      requires Valid() && file !in openFiles[..]
      modifies openFiles
      ensures Valid() && (file.lockLevel == 0 ==> (View(), code) == Register(old(View()), file.path))
      ensures code == SqliteOk ==> file in openFiles[..]
      ensures code != SqliteOk ==> openFiles[..] == old(openFiles[..])
    {
      ghost var t := View();
      var index := 0;
      while index < 16
        invariant 0 <= index <= 16 && openFiles[..] == old(openFiles[..])
        invariant forall k :: 0 <= k < index ==> openFiles[k] != null
      {
        if openFiles[index] == null {
          openFiles[index] := file;
          assert openFiles[index] == file;
          FirstEmptyIs(t, index);
          assert file.lockLevel == 0 ==> View() == t[index := Some(File(file.path, 0))];
          return SqliteOk;
        }
        index := index + 1;
      }
      FirstEmptyIs(t, 16);
      return CantOpen;
    }

    method UnregisterFile(file: SqliteFile, ghost slot: nat)
      requires Valid() && slot < 16 && openFiles[slot] == file
      modifies openFiles
      ensures Valid() && View() == old(View())[slot := None] && file !in openFiles[..]
    {
      ghost var t := View();
      var index := 0;
      while index < 16
        invariant 0 <= index <= 16
        invariant forall k :: 0 <= k < 16 ==>
          openFiles[k] == if k < index && old(openFiles[k]) == file then null else old(openFiles[k])
      {
        if openFiles[index] == file {
          openFiles[index] := null;
        }
        index := index + 1;
      }
      assert View() == t[slot := None];
    }

    method LockConflict(file: SqliteFile, requested: int, ghost slot: nat) returns (conflict: bool)
      requires Valid() && slot < 16 && openFiles[slot] == file
      ensures conflict <==> Conflict(View(), slot, requested)
    {
      ghost var t := View();
      var index := 0;
      while index < 16
        invariant 0 <= index <= 16
        invariant forall j: nat :: j < index && Rivals(t, slot, j) ==> !Blocks(requested, t[j].value.level)
      {
        var other := openFiles[index];
        if !(other == null || other == file || other.path != file.path) {
          assert Rivals(t, slot, index);
          if requested == 1 {
            if other.lockLevel >= 3 {
              return true;
            }
          } else if requested == 2 {
            if other.lockLevel >= 2 {
              return true;
            }
          } else if requested == 3 {
            if other.lockLevel >= 3 {
              return true;
            }
          } else if requested == 4 && other.lockLevel != 0 {
            return true;
          }
        }
        index := index + 1;
      }
      return false;
    }

    /** `sapote_lock` of an open file. */
    method LockFile(file: SqliteFile, requested: int, ghost slot: nat) returns (code: Code)
      requires Valid() && slot < 16 && openFiles[slot] == file
      modifies file`lockLevel
      ensures Valid() && (View(), code) == Lock(old(View()), slot, requested)
    {
      hide Conflict;
      if requested <= file.lockLevel {
        return SqliteOk;
      }
      var conflict := LockConflict(file, requested, slot);
      if conflict {
        return Busy;
      }
      ghost var t := View();
      file.lockLevel := requested;
      assert View() == SetLevel(t, slot, requested);
      return SqliteOk;
    }

    /** `sapote_unlock` of an open file. */
    method UnlockFile(file: SqliteFile, requested: int, ghost slot: nat) returns (code: Code)
      requires Valid() && slot < 16 && openFiles[slot] == file
      modifies file`lockLevel
      ensures Valid() && (View(), code) == Unlock(old(View()), slot, requested)
    {
      if requested < 0 || requested > file.lockLevel {
        return IoErrUnlock;
      }
      ghost var t := View();
      file.lockLevel := requested;
      assert View() == SetLevel(t, slot, requested);
      return SqliteOk;
    }

    /** `sapote_check_reserved`: whether some open file of the path is at reserved or above. */
    method CheckReserved(file: SqliteFile) returns (result: bool)
      requires Valid()
      ensures result <==> exists j: nat :: IsOpen(View(), j) && View()[j].value.path == file.path && View()[j].value.level >= 2
    {
      ghost var t := View();
      result := false;
      var index := 0;
      while index < 16
        invariant 0 <= index <= 16 && !result
        invariant forall j: nat :: j < index && IsOpen(t, j) && t[j].value.path == file.path ==> t[j].value.level < 2
      {
        var other := openFiles[index];
        if other != null && other.path == file.path && other.lockLevel >= 2 {
          assert IsOpen(t, index);
          result := true;
          break;
        }
        index := index + 1;
      }
    }

    /** `sapote_open`: `mapped` is the checked path, `granted` the descriptor the system gave. */
    method Open(file: SqliteFile, mapped: Option<string>, taken: bool, granted: Option<nat>, temporary: bool) returns (code: Code)
      requires Valid() && file !in openFiles[..]
      modifies openFiles, file
      ensures Valid()
      ensures
        if mapped.None? || taken || granted.None? then code == CantOpen && View() == old(View())
        else (View(), code) == Register(old(View()), mapped.value)
    {
      ghost var t := View();
      file.path, file.lockLevel, file.descriptor, file.deleteOnClose := "", 0, -1, false;
      assert View() == t;
      if mapped.None? {
        return CantOpen;
      }
      file.path := mapped.value;
      assert View() == t;
      if taken || granted.None? {
        return CantOpen;
      }
      file.descriptor, file.deleteOnClose := granted.value, temporary;
      assert View() == t;
      code := RegisterFile(file);
    }

    /** `sapote_close`: the slot is emptied whether or not the descriptor closed cleanly. */
    method Close(file: SqliteFile, closed: bool, ghost slot: nat) returns (code: Code)
      requires Valid() && slot < 16 && openFiles[slot] == file
      modifies openFiles
      ensures Valid() && View() == old(View())[slot := None] && code == if closed then SqliteOk else IoErrClose
    {
      UnregisterFile(file, slot);
      code := if closed then SqliteOk else IoErrClose;
    }
  }

  lemma FirstEmptyIs(t: Table, i: nat)
    requires i <= |t| && (i < |t| ==> t[i].None?) && forall k :: 0 <= k < i ==> t[k].Some?
    ensures FirstEmpty(t) == i
  {
  }

  /** `sapote_check_reserved` answers for a path with one writer: it is that writer's level. */
  lemma ReservedIsTheWriter(t: Table, i: nat, j: nat)
    requires OneWriter(t) && IsOpen(t, i) && IsOpen(t, j) && t[i].value.path == t[j].value.path
    requires t[i].value.level >= 2 && t[j].value.level >= 2
    ensures i == j
  {
    if i != j {
      assert Rivals(t, i, j);
    }
  }

  /** Any file may be opened, and an open file closed, unlocked, and asked for any of the five levels. */
  lemma AnyCallIsAllowed(t: Table, path: string, i: nat, requested: int)
    ensures Allowed(t, DoOpen(path))
    ensures i < |t| && t[i].Some? ==> Allowed(t, DoClose(i)) && Allowed(t, DoUnlock(i, requested))
    ensures i < |t| && t[i].Some? && 0 <= requested <= 4 ==> Allowed(t, DoLock(i, requested))
  {
  }
}
