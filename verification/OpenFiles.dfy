/** The calls that change descriptor tables (src/kernel/vfs.c, pipe.c, task.c). A failing assertion or a panic is a result of false. */
module OpenFiles {
  import opened Options
  import opened Descriptors

  const EBADF := 9
  const EMFILE := 24

  class Vfs {
    var tables: Tables
    var files: map<Address, OpenFile>
    var pipes: map<Address, Pipe>
    /** Files between new_filp and the end of the open call that asked for them. */
    ghost var reserved: set<Address>

    ghost predicate Valid()
      reads this
    {
      Counted(tables, files, reserved) && Piped(files, pipes)
    }

    constructor ()
      ensures Valid() && tables == map[] && files == map[] && pipes == map[] && reserved == {}
    {
      tables, files, pipes, reserved := map[], map[], map[], {};
    }

    /** do_get_filp: one slot more than the limit is looked at. */
    method GetFilp(t: TaskId, fd: int) returns (file: Option<Address>)
      requires Valid() && t in tables
      ensures file == if 0 <= fd < SLOTS then tables[t][fd] else None
    {
      if fd < 0 || fd > MAX_OPEN_FILES {
        return None;
      }
      file := tables[t][fd];
    }

    /** The lowest slot of the first n that is free. */
    method FreeSlot(t: TaskId, n: nat) returns (fd: nat)
      requires Valid() && t in tables && n <= SLOTS
      ensures fd <= n && (fd < n ==> tables[t][fd] == None) && forall i | 0 <= i < fd :: tables[t][i].Some?
    {
      fd := 0;
      while fd < n
        invariant fd <= n && forall i | 0 <= i < fd :: tables[t][i].Some?
      {
        if tables[t][fd] == None {
          return;
        }
        fd := fd + 1;
      }
    }

    /** new_filp: the lowest free slot, the one past the limit included; it panics only when there is none. */
    method NewFilp(t: TaskId, a: Address) returns (ok: bool, fd: nat)
      requires Valid() && t in tables && a !in files
      modifies this`tables, this`files, this`reserved
      ensures Valid() && (ok <==> exists i | 0 <= i < SLOTS :: old(tables[t])[i] == None)
      ensures ok ==> fd < SLOTS && old(tables[t])[fd] == None && forall i | 0 <= i < fd :: old(tables[t])[i].Some?
      ensures ok ==> tables == SetSlot(old(tables), t, fd, Some(a)) && files == old(files)[a := OpenFile(0, None)]
      ensures reserved == if ok then old(reserved) + {a} else old(reserved)
      ensures !ok ==> tables == old(tables) && files == old(files)
    {
      fd := FreeSlot(t, SLOTS);
      ok := fd < SLOTS;
      if ok {
        hide Counted, Piped;
        ReserveStep(tables, files, reserved, pipes, t, fd, a);
        tables := SetSlot(tables, t, fd, Some(a));
        files := files[a := OpenFile(0, None)];
        reserved := reserved + {a};
      }
    }

    /** The end of a file system's open: the count goes up. */
    method Install(t: TaskId, fd: nat)
      requires Valid() && t in tables && fd < SLOTS && tables[t][fd].Some? && tables[t][fd].value in reserved
      modifies this`files, this`reserved
      ensures Valid() && files == old(files)[tables[t][fd].value := OpenFile(1, None)]
      ensures reserved == old(reserved) - {tables[t][fd].value}
    {
      SlotOpen(tables, files, reserved, t, fd);
      InstallStep(tables, files, reserved, pipes, t, fd);
      hide Counted, Piped, Refs;
      var a := tables[t][fd].value;
      var file := files[a];
      files := files[a := file.(count := file.count + 1)];
      reserved := reserved - {a};
    }

    /** destroy_filp, for an open that failed: its assertion fails on the slot past the limit. */
    method DestroyFilp(t: TaskId, fd: nat) returns (ok: bool)
      requires Valid() && t in tables && fd < SLOTS && tables[t][fd].Some? && tables[t][fd].value in reserved
      modifies this`tables, this`files, this`reserved
      ensures ok <==> fd < MAX_OPEN_FILES
      ensures ok ==> Valid() && tables == SetSlot(old(tables), t, fd, None)
      ensures ok ==> files == old(files) - {old(tables[t][fd].value)} && reserved == old(reserved) - {old(tables[t][fd].value)}
    {
      if fd >= MAX_OPEN_FILES || tables[t][fd] == None {
        return false;
      }
      SlotOpen(tables, files, reserved, t, fd);
      DiscardStep(tables, files, reserved, pipes, t, fd);
      hide Counted, Piped, Refs;
      var a := tables[t][fd].value;
      files := files - {a};
      tables := SetSlot(tables, t, fd, None);
      reserved := reserved - {a};
      ok := true;
    }

    /** pipe_close: with the last descriptor of an end its pointer goes, and with the last end the pipe. */
    method PipeClose(a: Address) returns (ok: bool)
      requires Valid() && a in files && files[a].pipe.Some?
      modifies this`pipes
      ensures ok
      ensures files[a].count == 1 ==> EndClosed(old(pipes), pipes, files[a].pipe.value, a)
      ensures files[a].count != 1 ==> pipes == old(pipes)
    {
      var file := files[a];
      var p := file.pipe.value;
      if pipes[p].reader != Some(a) && pipes[p].writer != Some(a) {
        return false;
      }
      if pipes[p].reader == Some(a) {
        if file.count == 1 {
          pipes := pipes[p := pipes[p].(reader := None)];
        }
      } else {
        if file.count == 1 {
          pipes := pipes[p := pipes[p].(writer := None)];
        }
      }
      if pipes[p] == Pipe(None, None) {
        pipes := pipes - {p};
      }
      ok := true;
    }

    /** The rest of do_close, once the slot is known to hold an open file. */
    method CloseSlot(t: TaskId, fd: nat, a: Address)
      requires Valid() && t in tables && fd < SLOTS && tables[t][fd] == Some(a) && a !in reserved
      modifies this`tables, this`files, this`pipes
      ensures Valid() && tables == SetSlot(old(tables), t, fd, None) && files == CloseFile(old(files), a)
    {
      hide Counted, Piped, Refs, EndClosed, SetSlot;
      SlotOpen(tables, files, reserved, t, fd);
      ghost var was := pipes;
      if files[a].pipe.Some? {
        var ok := PipeClose(a);
      }
      CloseStep(tables, files, reserved, was, t, fd, pipes);
      var file := files[a].(count := files[a].count - 1);
      files := if file.count == 0 then files - {a} else files[a := file];
      tables := SetSlot(tables, t, fd, None);
    }

    /** do_close: -EBADF for a slot that is empty or not open yet. */
    method DoClose(t: TaskId, fd: int) returns (r: int)
      requires Valid() && t in tables
      modifies this`tables, this`files, this`pipes
      ensures Valid() && (r == 0 <==> 0 <= fd < SLOTS && old(tables[t][fd].Some? && tables[t][fd].value !in reserved))
      ensures r != 0 ==> r == -EBADF && tables == old(tables) && files == old(files) && pipes == old(pipes)
      ensures r == 0 ==> tables == SetSlot(old(tables), t, fd, None) && files == CloseFile(old(files), old(tables[t][fd].value))
    {
      var f := GetFilp(t, fd);
      if f == None {
        return -EBADF;
      }
      SlotOpen(tables, files, reserved, t, fd);
      hide Counted, Piped, Refs, SetSlot, CloseFile;
      if files[f.value].count < 1 {
        return -EBADF;
      }
      CloseSlot(t, fd, f.value);
      r := 0;
    }

    /** One open whose slot and file are given. */
    method OpenAt(t: TaskId, fd: nat, a: Address)
      requires Valid() && t in tables && fd < SLOTS && tables[t][fd] == None && a !in files
      modifies this`tables, this`files
      ensures Valid() && tables == SetSlot(old(tables), t, fd, Some(a)) && files == old(files)[a := OpenFile(1, None)]
    {
      hide Counted, Piped, SetSlot;
      SlotOpen(tables, files, reserved, t, fd);
      OpenStep(tables, files, reserved, pipes, t, fd, a);
      files := files[a := OpenFile(1, None)];
      tables := SetSlot(tables, t, fd, Some(a));
    }

    /** The table of a new task, empty or with three open files for the standard streams. */
    method CreateTask(t: TaskId, user: bool, streams: seq<Address>)
      requires Valid() && t !in tables && |streams| == 3
      requires forall i | 0 <= i < 3 :: streams[i] !in files && forall j | 0 <= j < i :: streams[j] != streams[i]
      modifies this
      ensures Valid() && reserved == old(reserved) && pipes == old(pipes) && (!user ==> files == old(files))
      ensures tables.Keys == old(tables.Keys) + {t} && forall u | u in old(tables) :: tables[u] == old(tables[u])
      ensures |tables[t]| == SLOTS && forall i | 0 <= i < SLOTS :: tables[t][i] == if user && i < 3 then Some(streams[i]) else None
    {
      EmptyTable(tables, files, reserved, t);
      hide Counted, Piped;
      tables := tables[t := seq(SLOTS, i => None)];
      if user {
        var i := 0;
        while i < 3
          invariant 0 <= i <= 3 && Valid() && reserved == old(reserved) && pipes == old(pipes)
          invariant forall j | i <= j < 3 :: streams[j] !in files
          invariant tables.Keys == old(tables.Keys) + {t} && forall u | u in old(tables) :: tables[u] == old(tables[u])
          invariant |tables[t]| == SLOTS && forall j | 0 <= j < SLOTS :: tables[t][j] == if j < i then Some(streams[j]) else None
        {
          OpenAt(t, i, streams[i]);
          i := i + 1;
        }
      }
    }

    /** The end of dup and dup2: a slot names the file, and the count goes up where the file still is. */
    method Point(t: TaskId, fd: nat, a: Address)
      requires Valid() && t in tables && fd < SLOTS && tables[t][fd] == None && a !in reserved
      modifies this`tables, this`files
      ensures tables == SetSlot(old(tables), t, fd, Some(a))
      ensures files.Keys == old(files.Keys) && (Valid() <==> a in files)
    {
      SlotOpen(tables, files, reserved, t, fd);
      hide Counted, Piped, Refs, SetSlot;
      if a in files {
        DupStep(tables, files, reserved, pipes, t, fd, a);
        files := files[a := files[a].(count := files[a].count + 1)];
        tables := SetSlot(tables, t, fd, Some(a));
      } else {
        Dangles(tables, files, reserved, t, fd, a);
        tables := SetSlot(tables, t, fd, Some(a));
      }
    }

    /** dup: the lowest free slot below the limit. */
    method Dup(t: TaskId, fd: int) returns (r: int)
      requires Valid() && t in tables
      requires 0 <= fd < SLOTS && tables[t][fd].Some? ==> tables[t][fd].value !in reserved
      modifies this`tables, this`files
      ensures Valid()
      ensures r == -EBADF <==> !(0 <= fd < SLOTS) || old(tables[t][fd]) == None
      ensures r == -EMFILE <==> 0 <= fd < SLOTS && old(tables[t])[fd].Some? && forall i | 0 <= i < MAX_OPEN_FILES :: old(tables[t])[i].Some?
      ensures r < 0 ==> (r == -EBADF || r == -EMFILE) && tables == old(tables) && files == old(files)
      ensures r >= 0 ==> r < MAX_OPEN_FILES && old(tables[t])[r] == None && forall i | 0 <= i < r :: old(tables[t])[i].Some?
      ensures r >= 0 ==> tables == SetSlot(old(tables), t, r, old(tables[t])[fd])
      ensures r >= 0 ==> files.Keys == old(files.Keys)
    {
      var f := GetFilp(t, fd);
      if f == None {
        return -EBADF;
      }
      SlotOpen(tables, files, reserved, t, fd);
      hide Counted, Piped, Refs;
      var i := FreeSlot(t, MAX_OPEN_FILES);
      if i == MAX_OPEN_FILES {
        return -EMFILE;
      }
      Point(t, i, f.value);
      r := i;
    }

    /**
      * dup2. A descriptor may be copied onto itself: it is closed first, and when it was the file's last one
      * the slot is left naming a file that is gone.
      */
    method Dup2(t: TaskId, fd: int, fd2: int) returns (ok: bool, r: int)
      requires Valid() && t in tables
      requires 0 <= fd < SLOTS && tables[t][fd].Some? ==> tables[t][fd].value !in reserved
      modifies this`tables, this`files, this`pipes
      ensures r == -EBADF <==> !(0 <= fd2 < MAX_OPEN_FILES && 0 <= fd < SLOTS && old(tables[t][fd]).Some?)
      ensures r == -EBADF ==> ok && tables == old(tables) && files == old(files) && pipes == old(pipes)
      ensures r != -EBADF ==> r == fd2 && (ok <==> !(old(tables[t])[fd2].Some? && old(tables[t])[fd2].value in reserved))
      ensures r != -EBADF && ok ==> tables == SetSlot(old(tables), t, fd2, old(tables[t])[fd])
      ensures r != -EBADF && ok ==> (Valid() <==> !(fd == fd2 && |Refs(old(tables), old(tables[t])[fd].value)| == 1))
    {
      r := -EBADF;
      if fd2 < 0 || fd2 >= MAX_OPEN_FILES {
        return true, r;
      }
      var f := GetFilp(t, fd);
      if f == None {
        return true, r;
      }
      SlotOpen(tables, files, reserved, t, fd);
      hide Counted, Piped, Refs, CloseFile;
      var old2 := GetFilp(t, fd2);
      r := fd2;
      if old2 != None {
        if old2.value !in reserved {
          SurvivesClose(tables, files, reserved, t, fd, fd2);
        }
        SetTwice(tables, t, fd2, None, f);
        var c := DoClose(t, fd2);
      }
      if tables[t][fd2] != None {
        return false, r;
      }
      Point(t, fd2, f.value);
      ok := true;
    }

    /** None of the first n slots holds a file that is still being opened. */
    ghost predicate Settled(table: Table, n: nat)
      requires n <= |table|
      reads this`reserved
    {
      forall i | 0 <= i < n && table[i].Some? :: table[i].value !in reserved
    }

    /**
      * The part of fork that shares the descriptors: the table is copied whole, the counts are raised for the slots
      * below the limit. All counts are right afterwards exactly when the slot past the limit was empty.
      */
    method Fork(parent: TaskId, child: TaskId) returns (ok: bool)
      requires Valid() && parent in tables && child !in tables
      modifies this`tables, this`files
      ensures ok <==> Settled(old(tables[parent]), MAX_OPEN_FILES)
      ensures ok ==> tables == old(tables)[child := old(tables)[parent]] && files.Keys == old(files.Keys)
      ensures ok ==> forall a | a in files :: files[a].pipe == old(files[a].pipe)
      ensures ok ==> (Valid() <==> old(tables)[parent][MAX_OPEN_FILES] == None)
    {
      hide Counted, Piped, Refs, Raised, Occurs;
      SlotOpen(tables, files, reserved, parent, 0);
      ghost var was := files;
      ghost var before := tables;
      var table := tables[parent];
      tables := tables[child := table];
      RaisedNone(was, table);
      var i := 0;
      while i < MAX_OPEN_FILES
        invariant 0 <= i <= MAX_OPEN_FILES && tables == before[child := table]
        invariant Raised(was, files, table, i) && Settled(table, i)
      {
        RaisedNext(was, files, table, i);
        if tables[child][i].Some? {
          var a := tables[child][i].value;
          SlotOpen(before, was, reserved, parent, i);
          if a in reserved {
            FirstSlot(before, was, reserved, parent, i);
          }
          RaisedAt(was, files, table, i, a);
          if files[a].count == 0 {
            return false;
          }
          files := files[a := files[a].(count := files[a].count + 1)];
        }
        i := i + 1;
      }
      RaisedAll(was, files, table, MAX_OPEN_FILES);
      ForkStep(before, was, reserved, child, parent, files);
      PipedCounts(was, pipes, files);
      ok := true;
    }

    /** The loop that closes a dying task's descriptors: each but the one past the limit. */
    method CloseAll(t: TaskId) returns (ok: bool)
      requires Valid() && t in tables
      modifies this`tables, this`files, this`pipes
      ensures Valid() && (ok <==> Settled(old(tables[t]), MAX_OPEN_FILES))
      ensures ok ==> ClosedBelow(tables, old(tables), t, MAX_OPEN_FILES)
    {
      SlotOpen(tables, files, reserved, t, 0);
      hide Counted, Piped, Refs, CloseFile, SetSlot;
      ghost var table := tables[t];
      var i := 0;
      assert ClosedBelow(tables, tables, t, 0);
      hide ClosedBelow, NoneDangles, CountRight, IsEnd;
      while i < MAX_OPEN_FILES
        invariant 0 <= i <= MAX_OPEN_FILES && Valid() && Settled(table, i) && ClosedBelow(tables, old(tables), t, i)
      {
        ClosedOneMore(tables, old(tables), t, i);
        assert tables[t][i] == table[i];
        if tables[t][i] != None {
          var r := DoClose(t, i);
          if r != 0 {
            return false;
          }
        }
        i := i + 1;
      }
      ok := true;
    }

    /**
      * The part of destroy_task that closes the descriptors and frees the table. All counts are right afterwards
      * exactly when the slot past the limit was empty: that one is never closed.
      */
    method Exit(t: TaskId) returns (ok: bool)
      requires Valid() && t in tables
      modifies this`tables, this`files, this`pipes
      ensures ok <==> Settled(old(tables[t]), MAX_OPEN_FILES)
      ensures ok ==> tables == old(tables) - {t}
      ensures ok ==> (Valid() <==> old(tables[t])[MAX_OPEN_FILES] == None)
    {
      hide Counted, Piped, Refs;
      SlotOpen(tables, files, reserved, t, 0);
      ok := CloseAll(t);
      if ok {
        SlotOpen(tables, files, reserved, t, 0);
        ExitStep(tables, files, reserved, t);
        tables := tables - {t};
      }
    }

    static ghost predicate TwoFree(table: Table) {
      exists i, j | 0 <= i < j < |table| :: table[i] == None && table[j] == None
    }

    static ghost predicate AreFirstFree(table: Table, rd: nat, wr: nat)
      requires wr < |table|
    {
      rd < wr && forall i | 0 <= i <= wr :: table[i] == None <==> i == rd || i == wr
    }

    /** The two calls of new_filp that pipe begins with. */
    method ReservePair(t: TaskId, a: Address, b: Address) returns (ok: bool, rd: nat, wr: nat)
      requires Valid() && t in tables && a !in files && b !in files && a != b
      modifies this`tables, this`files, this`reserved
      ensures Valid() && (ok <==> TwoFree(old(tables[t])))
      ensures ok ==> wr < SLOTS && AreFirstFree(old(tables[t]), rd, wr)
      ensures ok ==> tables == SetSlot(SetSlot(old(tables), t, rd, Some(a)), t, wr, Some(b))
      ensures ok ==> files == EndFiles(old(files), a, b, OpenFile(0, None))
      ensures ok ==> reserved - {a, b} == old(reserved) && a in reserved && b in reserved
    {
      assert a !in reserved && b !in reserved && |tables[t]| == SLOTS;
      hide Counted, Piped, SetSlot;
      ghost var table := tables[t];
      wr := 0;
      ok, rd := NewFilp(t, a);
      if ok {
        ok, wr := NewFilp(t, b);
        assert ok ==> table[rd] == None && table[wr] == None;
      }
    }

    /** pipe: two slots, two files and a pipe between them; it panics only when there are not two free slots. */
    method MakePipe(t: TaskId, a: Address, b: Address, p: Address) returns (ok: bool, rd: nat, wr: nat)
      requires Valid() && t in tables && a !in files && b !in files && a != b && p !in pipes
      modifies this
      ensures ok <==> TwoFree(old(tables[t]))
      ensures ok ==> Valid() && reserved == old(reserved) && wr < SLOTS && AreFirstFree(old(tables[t]), rd, wr)
      ensures ok ==> tables == SetSlot(SetSlot(old(tables), t, rd, Some(a)), t, wr, Some(b))
      ensures ok ==> files == EndFiles(old(files), a, b, OpenFile(1, Some(p)))
      ensures ok ==> pipes == old(pipes)[p := Pipe(Some(a), Some(b))]
    {
      SlotOpen(tables, files, reserved, t, 0);
      hide Counted, Piped, SetSlot, EndFiles, TwoFree;
      ok, rd, wr := ReservePair(t, a, b);
      if ok {
        PipeStep(tables, files, reserved, pipes, a, b, p);
        EndFilesTwice(old(files), a, b, OpenFile(0, None), OpenFile(1, Some(p)));
        files := EndFiles(files, a, b, OpenFile(1, Some(p)));
        pipes := pipes[p := Pipe(Some(a), Some(b))];
        reserved := reserved - {a, b};
      }
    }
  }

  // ----- runs

  /** A call of a task, or half of an open call: others can come between the two. */
  datatype Step =
    | NewTask(t: TaskId, user: bool, streams: seq<Address>)
    | BeginOpen(t: TaskId, a: Address)
    | EndOpen(t: TaskId, slot: nat)
    | FailOpen(t: TaskId, slot: nat)
    | OpenPipe(t: TaskId, a: Address, b: Address, p: Address)
    | CloseFd(t: TaskId, fd: int)
    | DupFd(t: TaskId, fd: int)
    | DupTo(t: TaskId, fd: int, fd2: int)
    | ForkTask(t: TaskId, child: TaskId)
    | ExitTask(t: TaskId)
  {
    /** Memory that is handed out is not in use, and new tasks are new. */
    predicate Fresh(v: Vfs)
      reads v
    {
      match this
      case NewTask(t, _, streams) =>
        t !in v.tables && |streams| == 3
        && forall i | 0 <= i < 3 :: streams[i] !in v.files && forall j | 0 <= j < i :: streams[j] != streams[i]
      case BeginOpen(_, a) => t in v.tables && a !in v.files
      case OpenPipe(_, a, b, p) => t in v.tables && a !in v.files && b !in v.files && a != b && p !in v.pipes
      case ForkTask(_, child) => t in v.tables && child !in v.tables
      case _ => t in v.tables
    }

    /** The step names what there is. */
    predicate Begins(s: Slots) {
      match this
      case NewTask(_, _, streams) => |streams| == 3
      case EndOpen(_, slot) => t in s.tables && slot < |s.tables[t]| && s.tables[t][slot].Some?
      case FailOpen(_, slot) => t in s.tables && |s.tables[t]| == SLOTS && slot < SLOTS && s.tables[t][slot].Some?
      case _ => t in s.tables && |s.tables[t]| == SLOTS
    }

    /** A task ends the opening of a file it began, and copies no descriptor whose file it is still opening. */
    predicate InOrder(v: Vfs)
      requires v.Valid() && Fresh(v)
      reads v
    {
      match this
      case EndOpen(_, slot) => slot < SLOTS && CountAt(v, t, slot) == Some(0)
      case FailOpen(_, slot) => slot < SLOTS && CountAt(v, t, slot) == Some(0)
      case DupFd(_, fd) => 0 <= fd < SLOTS ==> CountAt(v, t, fd) != Some(0)
      case DupTo(_, fd, _) => 0 <= fd < SLOTS ==> CountAt(v, t, fd) != Some(0)
      case _ => true
    }

    /** What breaks the counts: sharing or dropping a table whose slot past the limit is taken; a file's last descriptor onto itself. */
    predicate Sound(v: Vfs)
      requires v.Valid() && Fresh(v)
      reads v
    {
      match this
      case ForkTask(_, _) => v.tables[t][MAX_OPEN_FILES] == None
      case ExitTask(_) => v.tables[t][MAX_OPEN_FILES] == None
      case DupTo(_, fd, fd2) => fd == fd2 && 0 <= fd < MAX_OPEN_FILES ==> CountAt(v, t, fd) != Some(1)
      case _ => true
    }
  }

  /** A step that can come now and that is sound. */
  predicate Possible(step: Step, v: Vfs)
    requires v.Valid()
    reads v
  {
    step.Fresh(v) && step.InOrder(v) && step.Sound(v)
  }

  /** The count of the file in a slot. */
  function CountAt(v: Vfs, t: TaskId, i: nat): (c: Option<nat>)
    requires v.Valid() && t in v.tables && i < SLOTS
    reads v
    ensures c.Some? <==> v.tables[t][i].Some?
    ensures c.Some? ==> (c.value == 0 <==> v.tables[t][i].value in v.reserved)
    ensures c.Some? && c.value > 0 ==> |Refs(v.tables, v.tables[t][i].value)| == c.value
  {
    SlotOpen(v.tables, v.files, v.reserved, t, i);
    if v.tables[t][i].Some? then Some(v.files[v.tables[t][i].value].count) else None
  }

  // ----- what a step does to the tables

  /** The descriptor tables, and the files that are still being opened; counts and pipes follow from these. */
  datatype Slots = Slots(tables: Tables, reserved: set<Address>)

  ghost function SlotsOf(v: Vfs): Slots
    reads v
  {
    Slots(v.tables, v.reserved)
  }

  /** The lowest free one of the first n slots, or n. */
  function FirstFree(table: Table, n: nat): (i: nat)
    requires n <= |table|
    ensures i <= n && (i < n ==> table[i] == None) && forall j | 0 <= j < i :: table[j].Some?
  {
    if n == 0 then 0
    else
      var i := FirstFree(table, n - 1);
      if i < n - 1 || table[n - 1] == None then i else n
  }

  function NewTable(user: bool, streams: seq<Address>): Table
    requires |streams| == 3
  {
    seq(SLOTS, i requires 0 <= i < SLOTS => if user && i < 3 then Some(streams[i]) else None)
  }

  /** The slot holds an open file. */
  predicate Holds(s: Slots, t: TaskId, fd: int)
    requires t in s.tables
  {
    0 <= fd < |s.tables[t]| && s.tables[t][fd].Some?
  }

  predicate AllOpen(table: Table, reserved: set<Address>) {
    forall i | 0 <= i < MAX_OPEN_FILES && i < |table| && table[i].Some? :: table[i].value !in reserved
  }

  function Put(s: Slots, t: TaskId, i: nat, x: Option<Address>): Slots
    requires t in s.tables && i < |s.tables[t]|
  {
    s.(tables := SetSlot(s.tables, t, i, x))
  }

  /** The tables after a step; none after one that panics. */
  function After(step: Step, s: Slots): Option<Slots>
    requires step.Begins(s)
  {
    match step
    case NewTask(t, user, streams) => Some(s.(tables := s.tables[t := NewTable(user, streams)]))
    case BeginOpen(t, a) => Reserve(s, t, a)
    case EndOpen(t, slot) => Some(s.(reserved := s.reserved - {s.tables[t][slot].value}))
    case FailOpen(t, slot) =>
      if slot < MAX_OPEN_FILES then Some(Put(s, t, slot, None).(reserved := s.reserved - {s.tables[t][slot].value})) else None
    case OpenPipe(t, a, b, _) =>
      (match Reserve(s, t, a)
       case None => None
       case Some(one) =>
         match Reserve(one, t, b)
         case None => None
         case Some(two) => Some(two.(reserved := s.reserved)))
    case CloseFd(t, fd) => Some(if Holds(s, t, fd) && s.tables[t][fd].value !in s.reserved then Put(s, t, fd, None) else s)
    case DupFd(t, fd) =>
      var i := FirstFree(s.tables[t], MAX_OPEN_FILES);
      Some(if Holds(s, t, fd) && i < MAX_OPEN_FILES then Put(s, t, i, s.tables[t][fd]) else s)
    case DupTo(t, fd, fd2) =>
      if !(0 <= fd2 < MAX_OPEN_FILES && Holds(s, t, fd)) then Some(s)
      else if Holds(s, t, fd2) && s.tables[t][fd2].value in s.reserved then None
      else Some(Put(s, t, fd2, s.tables[t][fd]))
    case ForkTask(t, child) => if AllOpen(s.tables[t], s.reserved) then Some(s.(tables := s.tables[child := s.tables[t]])) else None
    case ExitTask(t) => if AllOpen(s.tables[t], s.reserved) then Some(s.(tables := s.tables - {t})) else None
  }

  /** new_filp. */
  function Reserve(s: Slots, t: TaskId, a: Address): Option<Slots>
    requires t in s.tables && |s.tables[t]| == SLOTS
  {
    var i := FirstFree(s.tables[t], SLOTS);
    if i < SLOTS then Some(Slots(SetSlot(s.tables, t, i, Some(a)), s.reserved + {a})) else None
  }

  lemma Begun(v: Vfs, step: Step)
    requires v.Valid() && step.Fresh(v) && step.InOrder(v)
    ensures step.Begins(SlotsOf(v)) && forall t | t in v.tables :: |v.tables[t]| == SLOTS
  {
    hide Refs, Piped;
  }

  lemma FirstFreeIs(table: Table, n: nat, i: nat)
    requires n <= |table| && i <= n && (i < n ==> table[i] == None) && forall j | 0 <= j < i :: table[j].Some?
    ensures FirstFree(table, n) == i
  {
  }

  /** One step does to the tables what it should, and panics exactly where that says; the counts are right afterwards exactly when
      the step is sound. */
  method Take(v: Vfs, step: Step) returns (ok: bool)
    requires v.Valid() && step.Fresh(v) && step.InOrder(v)
    modifies v
    ensures step.Begins(old(SlotsOf(v)))
    ensures ok <==> After(step, old(SlotsOf(v))).Some?
    ensures ok ==> After(step, old(SlotsOf(v))) == Some(SlotsOf(v))
    ensures ok ==> (v.Valid() <==> old(step.Sound(v)))
  {
    Begun(v, step);
    hide Counted, Piped, Refs, Put, Reserve;
    match step
    case NewTask(t, user, streams) =>
      v.CreateTask(t, user, streams);
      ok := true;
      assert v.tables[t] == NewTable(user, streams);
      assert v.tables == old(v.tables)[t := NewTable(user, streams)];
    case BeginOpen(t, a) => ok := TakeOpen(v, t, a);
    case EndOpen(t, slot) =>
      v.Install(t, slot);
      ok := true;
    case FailOpen(t, slot) =>
      ok := TakeFail(v, t, slot);
    case OpenPipe(t, a, b, p) => ok := TakePipe(v, t, a, b, p);
    case CloseFd(t, fd) =>
      TakeClose(v, t, fd);
      ok := true;
    case DupFd(t, fd) =>
      TakeDup(v, t, fd);
      ok := true;
    case DupTo(t, fd, fd2) =>
      ok := TakeDupTo(v, t, fd, fd2);
    case ForkTask(t, child) =>
      SlotOpen(v.tables, v.files, v.reserved, t, MAX_OPEN_FILES);
      ok := v.Fork(t, child);
    case ExitTask(t) =>
      SlotOpen(v.tables, v.files, v.reserved, t, MAX_OPEN_FILES);
      ok := v.Exit(t);
  }

  method TakeOpen(v: Vfs, t: TaskId, a: Address) returns (ok: bool)
    requires v.Valid() && t in v.tables && |v.tables[t]| == SLOTS && a !in v.files
    modifies v
    ensures v.Valid() && (ok <==> Reserve(old(SlotsOf(v)), t, a).Some?)
    ensures ok ==> Reserve(old(SlotsOf(v)), t, a) == Some(SlotsOf(v))
  {
    hide Counted, Piped, SetSlot;
    ghost var table := v.tables[t];
    var fd;
    ok, fd := v.NewFilp(t, a);
    if ok {
      FirstFreeIs(table, SLOTS, fd);
    }
  }

  method TakeFail(v: Vfs, t: TaskId, slot: nat) returns (ok: bool)
    requires v.Valid() && t in v.tables && |v.tables[t]| == SLOTS && FailOpen(t, slot).InOrder(v) && FailOpen(t, slot).Begins(SlotsOf(v))
    modifies v
    ensures ok <==> After(FailOpen(t, slot), old(SlotsOf(v))).Some?
    ensures ok ==> v.Valid() && After(FailOpen(t, slot), old(SlotsOf(v))) == Some(SlotsOf(v))
  {
    hide Counted, Piped, Refs, SetSlot;
    ok := v.DestroyFilp(t, slot);
  }

  method TakePipe(v: Vfs, t: TaskId, a: Address, b: Address, p: Address) returns (ok: bool)
    requires v.Valid() && t in v.tables && |v.tables[t]| == SLOTS && OpenPipe(t, a, b, p).Fresh(v)
    modifies v
    ensures ok <==> After(OpenPipe(t, a, b, p), old(SlotsOf(v))).Some?
    ensures ok ==> v.Valid() && After(OpenPipe(t, a, b, p), old(SlotsOf(v))) == Some(SlotsOf(v))
  {
    hide Counted, Piped, Refs;
    ghost var s := SlotsOf(v);
    var rd, wr;
    ok, rd, wr := v.MakePipe(t, a, b, p);
    TwoReserved(s, t, a, b, rd, wr);
  }

  /** The two lowest free slots. */
  lemma TwoReserved(s: Slots, t: TaskId, a: Address, b: Address, rd: nat, wr: nat)
    requires t in s.tables && |s.tables[t]| == SLOTS
    ensures var r := Reserve(s, t, a);
            r.Some? ==> |r.value.tables[t]| == SLOTS
    ensures var r := Reserve(s, t, a);
            Vfs.TwoFree(s.tables[t]) <==> r.Some? && Reserve(r.value, t, b).Some?
    ensures wr < SLOTS && Vfs.AreFirstFree(s.tables[t], rd, wr) ==>
              var r := Reserve(s, t, a);
              r.Some? && Reserve(r.value, t, b) == Some(Slots(SetSlot(SetSlot(s.tables, t, rd, Some(a)), t, wr, Some(b)), s.reserved + {a} + {b}))
  {
    var table := s.tables[t];
    var i := FirstFree(table, SLOTS);
    if i < SLOTS {
      var next := table[i := Some(a)];
      var j := FirstFree(next, SLOTS);
      assert SetSlot(s.tables, t, i, Some(a))[t] == next;
      if j < SLOTS {
        assert next[j] == None && table[i] == None && table[j] == None;
      }
    }
    if wr < SLOTS && Vfs.AreFirstFree(table, rd, wr) {
      FirstFreeIs(table, SLOTS, rd);
      FirstFreeIs(table[rd := Some(a)], SLOTS, wr);
    }
  }

  method TakeClose(v: Vfs, t: TaskId, fd: int)
    requires v.Valid() && t in v.tables && |v.tables[t]| == SLOTS
    modifies v
    ensures v.Valid() && After(CloseFd(t, fd), old(SlotsOf(v))) == Some(SlotsOf(v))
  {
    hide Counted, Piped, Refs, SetSlot, CloseFile;
    var r := v.DoClose(t, fd);
  }

  method TakeDup(v: Vfs, t: TaskId, fd: int)
    requires v.Valid() && t in v.tables && |v.tables[t]| == SLOTS && DupFd(t, fd).InOrder(v)
    modifies v
    ensures v.Valid() && After(DupFd(t, fd), old(SlotsOf(v))) == Some(SlotsOf(v))
  {
    hide Counted, Piped, Refs, SetSlot;
    ghost var table := v.tables[t];
    var r := v.Dup(t, fd);
    if r >= 0 {
      FirstFreeIs(table, MAX_OPEN_FILES, r);
    }
  }

  method TakeDupTo(v: Vfs, t: TaskId, fd: int, fd2: int) returns (ok: bool)
    requires v.Valid() && t in v.tables && |v.tables[t]| == SLOTS && DupTo(t, fd, fd2).InOrder(v)
    modifies v
    ensures ok <==> After(DupTo(t, fd, fd2), old(SlotsOf(v))).Some?
    ensures ok ==> After(DupTo(t, fd, fd2), old(SlotsOf(v))) == Some(SlotsOf(v))
    ensures ok ==> (v.Valid() <==> old(DupTo(t, fd, fd2).Sound(v)))
  {
    hide Counted, Piped, Refs, SetSlot;
    var r;
    ok, r := v.Dup2(t, fd, fd2);
  }

  /** Every run of sound steps, by any number of tasks in any order, makes of the tables what its steps make of them one by one, with
      every count right. It ends early only at a step that cannot come or is not sound, or at one that panics. */
  method Run(v: Vfs, steps: seq<Step>) returns (done: nat, ok: bool, ghost trace: seq<Slots>)
    requires v.Valid()
    modifies v
    ensures done <= |steps| && |trace| == done + 1 && trace[0] == old(SlotsOf(v))
    ensures forall k | 0 <= k < done :: steps[k].Begins(trace[k]) && After(steps[k], trace[k]) == Some(trace[k + 1])
    ensures ok ==> v.Valid() && SlotsOf(v) == trace[done]
    ensures ok && done < |steps| ==> !Possible(steps[done], v)
    ensures !ok ==> done < |steps| && steps[done].Begins(trace[done]) && After(steps[done], trace[done]) == None
  {
    hide After, Vfs.Valid;
    done, ok := 0, true;
    trace := [SlotsOf(v)];
    while done < |steps|
      invariant done <= |steps| && |trace| == done + 1 && trace[0] == old(SlotsOf(v)) && trace[done] == SlotsOf(v) && v.Valid() && ok
      invariant forall k | 0 <= k < done :: steps[k].Begins(trace[k]) && After(steps[k], trace[k]) == Some(trace[k + 1])
    {
      if !Possible(steps[done], v) {
        return;
      }
      ok := Take(v, steps[done]);
      if !ok {
        return;
      }
      trace := trace + [SlotsOf(v)];
      done := done + 1;
    }
  }

  // ----- what goes wrong

  /** A user program that copies its standard input onto itself: the slot is left with a file that is gone. */
  method OntoItself() returns (v: Vfs, ok: bool)
    ensures ok && !v.Valid()
  {
    hide Counted, Piped, Refs;
    v := new Vfs();
    v.CreateTask(0, true, [0, 1, 2]);
    SlotOpen(v.tables, v.files, v.reserved, 0, 0);
    OneSlot(v.tables, 0, 0, 0);
    var r;
    ok, r := v.Dup2(0, 0, 0);
  }

  lemma OneSlot(tables: Tables, t: TaskId, i: nat, a: Address)
    requires tables.Keys == {t} && i < |tables[t]| && forall j | 0 <= j < |tables[t]| :: tables[t][j] == Some(a) <==> j == i
    ensures |Refs(tables, a)| == 1
  {
    assert Refs(tables, a) == {(t, i)};
  }

  /** A task that opens as many files as it has slots, and then forks or exits: the slot past the limit is copied without being
      counted, or dropped without being closed. */
  method PastTheLimit(fork: bool) returns (v: Vfs, ok: bool)
    ensures ok && !v.Valid()
  {
    hide Counted, Piped, Refs, SetSlot;
    v := new Vfs();
    v.CreateTask(0, false, [0, 1, 2]);
    SlotOpen(v.tables, v.files, v.reserved, 0, 0);
    var k := 0;
    while k < SLOTS
      invariant k <= SLOTS && v.Valid() && v.tables.Keys == {0} && |v.tables[0]| == SLOTS && v.reserved == {} && fresh(v)
      invariant forall i | 0 <= i < SLOTS :: v.tables[0][i] == if i < k then Some(i) else None
      invariant forall a | a in v.files :: a < k
    {
      assert v.tables[0][k] == None;
      var found, fd := v.NewFilp(0, k);
      v.Install(0, fd);
      k := k + 1;
    }
    if fork {
      ok := v.Fork(0, 1);
    } else {
      ok := v.Exit(0);
    }
  }
}
