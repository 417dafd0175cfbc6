/** What the counts of open files mean: the slots of all tasks' tables that name a file (src/kernel/vfs.c, pipe.c). */
module Descriptors {
  import opened Options

  type Address = nat
  type TaskId = nat

  /** Tables are larger than this many slots, and the search for a free one also looks at the slot past them. */
  const MAX_OPEN_FILES := 128
  const SLOTS := MAX_OPEN_FILES + 1

  type Table = seq<Option<Address>>
  type Tables = map<TaskId, Table>

  datatype OpenFile = OpenFile(count: nat, pipe: Option<Address>)
  datatype Pipe = Pipe(reader: Option<Address>, writer: Option<Address>)

  /** The slots that name a file. */
  ghost function Refs(tables: Tables, a: Address): set<(TaskId, nat)> {
    set t, i | t in tables && 0 <= i < |tables[t]| && tables[t][i] == Some(a) :: (t, i)
  }

  function SetSlot(tables: Tables, t: TaskId, i: nat, v: Option<Address>): (r: Tables)
    requires t in tables && i < |tables[t]|
    ensures r.Keys == tables.Keys && forall u | u in tables :: |r[u]| == |tables[u]|
    ensures forall u, j | u in tables && 0 <= j < |tables[u]| ::
              r[u][j] == if u == t && j == i then v else tables[u][j]
  {
    tables[t := tables[t][i := v]]
  }

  lemma SetTwice(tables: Tables, t: TaskId, i: nat, v: Option<Address>, w: Option<Address>)
    requires t in tables && i < |tables[t]|
    ensures SetSlot(SetSlot(tables, t, i, v), t, i, w) == SetSlot(tables, t, i, w)
  {
    assert tables[t][i := v][i := w] == tables[t][i := w];
  }

  lemma RefsAfterSet(tables: Tables, t: TaskId, i: nat, v: Option<Address>, a: Address)
    requires t in tables && i < |tables[t]|
    ensures |Refs(SetSlot(tables, t, i, v), a)|
         == |Refs(tables, a)| - (if tables[t][i] == Some(a) then 1 else 0) + (if v == Some(a) then 1 else 0)
  {
    var now := SetSlot(tables, t, i, v);
    var rest := Refs(tables, a) - {(t, i)};
    assert Refs(now, a) == rest + (if v == Some(a) then {(t, i)} else {});
    if tables[t][i] == Some(a) {
      assert Refs(tables, a) == rest + {(t, i)};
    } else {
      assert Refs(tables, a) == rest;
    }
  }

  /** How many of the first n slots name a file. */
  ghost function Occurs(table: Table, a: Address, n: nat): (k: nat)
    requires n <= |table|
    ensures k > 0 <==> exists i | 0 <= i < n :: table[i] == Some(a)
  {
    if n == 0 then 0 else Occurs(table, a, n - 1) + (if table[n - 1] == Some(a) then 1 else 0)
  }

  ghost function Named(t: TaskId, table: Table, a: Address, n: nat): set<(TaskId, nat)>
    requires n <= |table|
  {
    set i | 0 <= i < n && table[i] == Some(a) :: (t, i)
  }

  lemma {:induction false} NamedCount(t: TaskId, table: Table, a: Address, n: nat)
    requires n <= |table|
    ensures |Named(t, table, a, n)| == Occurs(table, a, n)
  {
    if n > 0 {
      NamedCount(t, table, a, n - 1);
      var less := Named(t, table, a, n - 1);
      if table[n - 1] == Some(a) {
        assert Named(t, table, a, n) == less + {(t, n - 1)};
      } else {
        assert Named(t, table, a, n) == less;
      }
    }
  }

  /** A table more adds its own slots. */
  lemma RefsWithTable(tables: Tables, t: TaskId, table: Table, a: Address)
    requires t !in tables
    ensures |Refs(tables[t := table], a)| == |Refs(tables, a)| + Occurs(table, a, |table|)
  {
    hide Refs, Named, Occurs;
    NamedCount(t, table, a, |table|);
    var now := tables[t := table];
    forall x: (TaskId, nat)
      ensures x in Refs(now, a) <==> x in Refs(tables, a) || x in Named(t, table, a, |table|)
    {
      RefOrNot(now, a, x.0, x.1);
      RefOrNot(tables, a, x.0, x.1);
      NamedOrNot(t, table, a, x.0, x.1);
    }
    assert Refs(now, a) == Refs(tables, a) + Named(t, table, a, |table|);
    assert Refs(tables, a) !! Named(t, table, a, |table|) by {
      forall x: (TaskId, nat) | x in Named(t, table, a, |table|)
        ensures x !in Refs(tables, a)
      {
        RefOrNot(tables, a, x.0, x.1);
        NamedOrNot(t, table, a, x.0, x.1);
      }
    }
  }

  lemma RefOrNot(tables: Tables, a: Address, t: TaskId, i: nat)
    ensures (t, i) in Refs(tables, a) <==> t in tables && i < |tables[t]| && tables[t][i] == Some(a)
  {
  }

  lemma NamedOrNot(t: TaskId, table: Table, a: Address, u: TaskId, i: nat)
    ensures (u, i) in Named(t, table, a, |table|) <==> u == t && i < |table| && table[i] == Some(a)
  {
  }

  // ----- the invariant

  /** Every table has all its slots, and no slot dangles. */
  ghost predicate NoneDangles(tables: Tables, files: map<Address, OpenFile>) {
    && (forall t | t in tables :: |tables[t]| == SLOTS)
    && (forall t, i | t in tables && 0 <= i < |tables[t]| && tables[t][i].Some? :: tables[t][i].value in files)
  }

  /** A file's count is the number of slots that name it; a file that is still being opened has one slot and counts 0. */
  ghost predicate CountRight(tables: Tables, reserved: set<Address>, a: Address, file: OpenFile) {
    if a in reserved then file == OpenFile(0, None) && |Refs(tables, a)| == 1
    else file.count > 0 && |Refs(tables, a)| == file.count
  }

  ghost predicate Counted(tables: Tables, files: map<Address, OpenFile>, reserved: set<Address>) {
    && NoneDangles(tables, files)
    && reserved <= files.Keys
    && forall a | a in files :: CountRight(tables, reserved, a, files[a])
  }

  predicate IsEnd(p: Pipe, a: Address) {
    p.reader == Some(a) || p.writer == Some(a)
  }

  /** The pipes that exist are those with an open end, and an end's pointer leads to an open file of the pipe. */
  ghost predicate Piped(files: map<Address, OpenFile>, pipes: map<Address, Pipe>) {
    && (forall a | a in files && files[a].pipe.Some? :: files[a].pipe.value in pipes && IsEnd(pipes[files[a].pipe.value], a))
    && (forall p | p in pipes :: (pipes[p].reader.Some? || pipes[p].writer.Some?) && pipes[p].reader != pipes[p].writer)
    && (forall p, a | p in pipes && IsEnd(pipes[p], a) :: a in files && files[a].pipe == Some(p))
  }

  /** The slots that name a pipe's end with this pointer. */
  ghost predicate SomeSlotNames(tables: Tables, a: Address) {
    exists t, i | t in tables && 0 <= i < |tables[t]| :: tables[t][i] == Some(a)
  }

  /** A file is freed exactly when its last slot goes: those there are have one. */
  lemma FilesAreNamed(tables: Tables, files: map<Address, OpenFile>, reserved: set<Address>, a: Address)
    requires Counted(tables, files, reserved)
    ensures a in files <==> SomeSlotNames(tables, a)
  {
    if a in files {
      assert CountRight(tables, reserved, a, files[a]);
      var ref :| ref in Refs(tables, a);
      assert tables[ref.0][ref.1] == Some(a);
    }
  }

  /** An end's pointer is null exactly when no slot names that end any more. */
  lemma EndNullIffUnnamed(tables: Tables, files: map<Address, OpenFile>, reserved: set<Address>, pipes: map<Address, Pipe>, p: Address, a: Address)
    requires Counted(tables, files, reserved) && Piped(files, pipes) && p in pipes
    ensures IsEnd(pipes[p], a) <==> SomeSlotNames(tables, a) && files[a].pipe == Some(p)
    ensures exists b :: IsEnd(pipes[p], b) && SomeSlotNames(tables, b)
  {
    FilesAreNamed(tables, files, reserved, a);
    var b := if pipes[p].reader.Some? then pipes[p].reader.value else pipes[p].writer.value;
    assert IsEnd(pipes[p], b);
    FilesAreNamed(tables, files, reserved, b);
  }

  // ----- the operations' effects on the invariant

  /** One slot and one count move together. */
  lemma CountedAfter(tables: Tables, files: map<Address, OpenFile>, reserved: set<Address>,
                     t: TaskId, i: nat, v: Option<Address>, files': map<Address, OpenFile>, reserved': set<Address>)
    requires Counted(tables, files, reserved) && t in tables && i < SLOTS
    requires var was := tables[t][i];
             (forall a | Some(a) != was && Some(a) != v ::
               (a in files <==> a in files') && (a in files ==> files[a] == files'[a]) && (a in reserved <==> a in reserved'))
    requires v.Some? ==> v.value in files' && CountRight(SetSlot(tables, t, i, v), reserved', v.value, files'[v.value])
    requires tables[t][i].Some? && tables[t][i] != v ==>
               var a := tables[t][i].value;
               if a in files' then CountRight(SetSlot(tables, t, i, v), reserved', a, files'[a])
               else a in files && a !in reserved' && files[a].count <= 1
    requires reserved' <= files'.Keys
    ensures Counted(SetSlot(tables, t, i, v), files', reserved')
  {
    var now := SetSlot(tables, t, i, v);
    forall a | a in files'
      ensures CountRight(now, reserved', a, files'[a])
    {
      RefsAfterSet(tables, t, i, v, a);
    }
    forall u, j | u in now && 0 <= j < |now[u]| && now[u][j].Some?
      ensures now[u][j].value in files'
    {
      if !(u == t && j == i) && tables[t][i] == tables[u][j] {
        TwoRefs(tables, tables[u][j].value, (t, i), (u, j));
      }
    }
  }

  lemma TwoRefs(tables: Tables, a: Address, x: (TaskId, nat), y: (TaskId, nat))
    requires x in Refs(tables, a) && y in Refs(tables, a) && x != y
    ensures |Refs(tables, a)| >= 2
  {
    assert {x, y} <= Refs(tables, a);
    var rest := Refs(tables, a) - {x} - {y};
    assert Refs(tables, a) == rest + {x} + {y};
  }

  /** Nobody names what is not there. */
  lemma Unnamed(tables: Tables, files: map<Address, OpenFile>, a: Address)
    requires NoneDangles(tables, files) && a !in files
    ensures |Refs(tables, a)| == 0
  {
    assert Refs(tables, a) == {};
  }

  lemma SlotNames(tables: Tables, t: TaskId, i: nat, a: Address)
    requires t in tables && i < |tables[t]| && tables[t][i] == Some(a)
    ensures (t, i) in Refs(tables, a) && |Refs(tables, a)| >= 1
  {
    assert (t, i) in Refs(tables, a);
  }

  /** A pipe once a file is no longer its end. */
  function Without(p: Pipe, a: Address): (r: Pipe)
    ensures forall b :: IsEnd(r, b) <==> IsEnd(p, b) && b != a
  {
    Pipe(if p.reader == Some(a) then None else p.reader, if p.writer == Some(a) then None else p.writer)
  }

  /** The end is gone, and the pipe with it when it was the last one. */
  ghost predicate EndClosed(was: map<Address, Pipe>, now: map<Address, Pipe>, p: Address, a: Address) {
    && p in was
    && (forall q | q != p :: (q in now <==> q in was) && (q in now ==> now[q] == was[q]))
    && var left := Without(was[p], a);
       if left == Pipe(None, None) then p !in now else p in now && now[p] == left
  }

  lemma PipedAfterClose(files: map<Address, OpenFile>, pipes: map<Address, Pipe>, now: map<Address, Pipe>, p: Address, a: Address)
    requires Piped(files, pipes) && a in files && files[a].pipe == Some(p) && EndClosed(pipes, now, p, a)
    ensures Piped(files - {a}, now)
  {
    forall b | b in files - {a} && files[b].pipe.Some?
      ensures files[b].pipe.value in now && IsEnd(now[files[b].pipe.value], b)
    {
      assert IsEnd(pipes[files[b].pipe.value], b);
    }
    forall q, b | q in now && IsEnd(now[q], b)
      ensures b in files - {a} && files[b].pipe == Some(q)
    {
      assert IsEnd(pipes[q], b);
      assert q == p ==> IsEnd(Without(pipes[p], a), b);
    }
    forall q | q in now
      ensures (now[q].reader.Some? || now[q].writer.Some?) && now[q].reader != now[q].writer
    {
      assert q in pipes;
    }
  }

  /** The files after a slot of one of them is closed. */
  function CloseFile(files: map<Address, OpenFile>, a: Address): (r: map<Address, OpenFile>)
    requires a in files && files[a].count > 0
    ensures a in r <==> files[a].count > 1
    ensures a in r ==> r[a] == files[a].(count := files[a].count - 1)
    ensures forall b | b != a :: (b in r <==> b in files) && (b in r ==> r[b] == files[b])
  {
    if files[a].count == 1 then files - {a} else files[a := files[a].(count := files[a].count - 1)]
  }

  /** Closing a slot keeps both halves of the invariant. */
  lemma CloseStep(tables: Tables, files: map<Address, OpenFile>, reserved: set<Address>, pipes: map<Address, Pipe>,
                  t: TaskId, fd: nat, pipes': map<Address, Pipe>)
    requires Counted(tables, files, reserved) && Piped(files, pipes)
    requires t in tables && fd < SLOTS && tables[t][fd].Some? && tables[t][fd].value !in reserved
    requires var a := tables[t][fd].value;
             if files[a].count == 1 && files[a].pipe.Some? then EndClosed(pipes, pipes', files[a].pipe.value, a) else pipes' == pipes
    ensures Counted(SetSlot(tables, t, fd, None), CloseFile(files, tables[t][fd].value), reserved)
    ensures Piped(CloseFile(files, tables[t][fd].value), pipes')
  {
    var a := tables[t][fd].value;
    var files' := CloseFile(files, a);
    SlotNames(tables, t, fd, a);
    RefsAfterSet(tables, t, fd, None, a);
    CountedAfter(tables, files, reserved, t, fd, None, files', reserved);
    if files[a].count == 1 && files[a].pipe.Some? {
      PipedAfterClose(files, pipes, pipes', files[a].pipe.value, a);
    } else {
      PipedKept(files, pipes, files', a);
    }
  }

  /** Counts do not matter to pipes, nor do files that are none of their ends. */
  lemma PipedKept(files: map<Address, OpenFile>, pipes: map<Address, Pipe>, now: map<Address, OpenFile>, a: Address)
    requires Piped(files, pipes) && a in files
    requires forall b | b != a :: (b in now <==> b in files) && (b in now ==> now[b] == files[b])
    requires if a in now then now[a].pipe == files[a].pipe else files[a].pipe == None
    ensures Piped(now, pipes)
  {
  }

  lemma SlotOpen(tables: Tables, files: map<Address, OpenFile>, reserved: set<Address>, t: TaskId, fd: nat)
    requires Counted(tables, files, reserved) && t in tables && fd < SLOTS
    ensures |tables[t]| == SLOTS
    ensures tables[t][fd].Some? ==>
              var a := tables[t][fd].value;
              a in files && (files[a].count == 0 <==> a in reserved) && |Refs(tables, a)| == if a in reserved then 1 else files[a].count
  {
    if tables[t][fd].Some? {
      var a := tables[t][fd].value;
      assert CountRight(tables, reserved, a, files[a]);
    }
  }

  /** A new file in a free slot, not open yet. */
  lemma ReserveStep(tables: Tables, files: map<Address, OpenFile>, reserved: set<Address>, pipes: map<Address, Pipe>,
                    t: TaskId, fd: nat, a: Address)
    requires Counted(tables, files, reserved) && Piped(files, pipes) && t in tables && fd < SLOTS && tables[t][fd] == None
    requires a !in files
    ensures Counted(SetSlot(tables, t, fd, Some(a)), files[a := OpenFile(0, None)], reserved + {a})
    ensures Piped(files[a := OpenFile(0, None)], pipes)
  {
    Unnamed(tables, files, a);
    RefsAfterSet(tables, t, fd, Some(a), a);
    CountedAfter(tables, files, reserved, t, fd, Some(a), files[a := OpenFile(0, None)], reserved + {a});
  }

  /** Its count goes up. */
  lemma InstallStep(tables: Tables, files: map<Address, OpenFile>, reserved: set<Address>, pipes: map<Address, Pipe>, t: TaskId, fd: nat)
    requires Counted(tables, files, reserved) && Piped(files, pipes)
    requires t in tables && fd < SLOTS && tables[t][fd].Some? && tables[t][fd].value in reserved
    ensures var a := tables[t][fd].value;
            files[a] == OpenFile(0, None) && Counted(tables, files[a := OpenFile(1, None)], reserved - {a})
            && Piped(files[a := OpenFile(1, None)], pipes)
  {
    var a := tables[t][fd].value;
    RefsAfterSet(tables, t, fd, Some(a), a);
    CountedAfter(tables, files, reserved, t, fd, Some(a), files[a := OpenFile(1, None)], reserved - {a});
    assert tables[t][fd := Some(a)] == tables[t];
    PipedKept(files, pipes, files[a := OpenFile(1, None)], a);
  }

  /** A new file in a free slot, open at once. */
  lemma OpenStep(tables: Tables, files: map<Address, OpenFile>, reserved: set<Address>, pipes: map<Address, Pipe>,
                 t: TaskId, fd: nat, a: Address)
    requires Counted(tables, files, reserved) && Piped(files, pipes) && t in tables && fd < SLOTS && tables[t][fd] == None
    requires a !in files
    ensures Counted(SetSlot(tables, t, fd, Some(a)), files[a := OpenFile(1, None)], reserved)
    ensures Piped(files[a := OpenFile(1, None)], pipes)
  {
    hide Piped;
    ReserveStep(tables, files, reserved, pipes, t, fd, a);
    InstallStep(SetSlot(tables, t, fd, Some(a)), files[a := OpenFile(0, None)], reserved + {a}, pipes, t, fd);
    assert files[a := OpenFile(0, None)][a := OpenFile(1, None)] == files[a := OpenFile(1, None)];
    assert reserved + {a} - {a} == reserved;
  }

  /** Or it is thrown away again. */
  lemma DiscardStep(tables: Tables, files: map<Address, OpenFile>, reserved: set<Address>, pipes: map<Address, Pipe>, t: TaskId, fd: nat)
    requires Counted(tables, files, reserved) && Piped(files, pipes)
    requires t in tables && fd < SLOTS && tables[t][fd].Some? && tables[t][fd].value in reserved
    ensures var a := tables[t][fd].value;
            Counted(SetSlot(tables, t, fd, None), files - {a}, reserved - {a}) && Piped(files - {a}, pipes)
  {
    var a := tables[t][fd].value;
    RefsAfterSet(tables, t, fd, None, a);
    CountedAfter(tables, files, reserved, t, fd, None, files - {a}, reserved - {a});
    PipedKept(files, pipes, files - {a}, a);
  }

  /** Closing one slot takes another one's file away only if the two are the same slot and the file's last. */
  lemma SurvivesClose(tables: Tables, files: map<Address, OpenFile>, reserved: set<Address>, t: TaskId, fd: nat, fd2: nat)
    requires Counted(tables, files, reserved) && t in tables && fd < SLOTS && fd2 < SLOTS
    requires tables[t][fd].Some? && tables[t][fd].value !in reserved && tables[t][fd2].Some? && tables[t][fd2].value !in reserved
    ensures files[tables[t][fd2].value].count > 0
    ensures var a := tables[t][fd].value;
            a in CloseFile(files, tables[t][fd2].value) <==> !(fd == fd2 && |Refs(tables, a)| == 1)
  {
    SlotOpen(tables, files, reserved, t, fd);
    SlotOpen(tables, files, reserved, t, fd2);
    if tables[t][fd] == tables[t][fd2] && fd != fd2 {
      TwoRefs(tables, tables[t][fd].value, (t, fd), (t, fd2));
    }
  }

  /** One more slot for an open file. */
  lemma DupStep(tables: Tables, files: map<Address, OpenFile>, reserved: set<Address>, pipes: map<Address, Pipe>, t: TaskId, fd: nat, a: Address)
    requires Counted(tables, files, reserved) && Piped(files, pipes) && t in tables && fd < SLOTS && tables[t][fd] == None
    requires a in files && a !in reserved
    ensures var files' := files[a := files[a].(count := files[a].count + 1)];
            Counted(SetSlot(tables, t, fd, Some(a)), files', reserved) && Piped(files', pipes)
  {
    var files' := files[a := files[a].(count := files[a].count + 1)];
    RefsAfterSet(tables, t, fd, Some(a), a);
    CountedAfter(tables, files, reserved, t, fd, Some(a), files', reserved);
    PipedKept(files, pipes, files', a);
  }

  /** Both ends' files alike. */
  function EndFiles(files: map<Address, OpenFile>, a: Address, b: Address, file: OpenFile): (r: map<Address, OpenFile>)
    ensures r.Keys == files.Keys + {a, b} && r[a] == r[b] == file
    ensures forall c | c in files && c != a && c != b :: r[c] == files[c]
  {
    files[a := file][b := file]
  }

  lemma EndFilesTwice(files: map<Address, OpenFile>, a: Address, b: Address, first: OpenFile, file: OpenFile)
    ensures EndFiles(EndFiles(files, a, b, first), a, b, file) == EndFiles(files, a, b, file)
  {
  }

  /** Two files that are being opened become the ends of a new pipe. */
  lemma PipeStep(tables: Tables, files: map<Address, OpenFile>, reserved: set<Address>, pipes: map<Address, Pipe>,
                 a: Address, b: Address, p: Address)
    requires Counted(tables, files, reserved) && Piped(files, pipes)
    requires a != b && a in reserved && b in reserved && p !in pipes
    ensures var files' := EndFiles(files, a, b, OpenFile(1, Some(p)));
            Counted(tables, files', reserved - {a, b}) && Piped(files', pipes[p := Pipe(Some(a), Some(b))])
  {
    var files' := EndFiles(files, a, b, OpenFile(1, Some(p)));
    forall c | c in files'
      ensures CountRight(tables, reserved - {a, b}, c, files'[c])
    {
      assert CountRight(tables, reserved, c, files[c]);
    }
    assert files[a].pipe == None && files[b].pipe == None by {
      assert CountRight(tables, reserved, a, files[a]) && CountRight(tables, reserved, b, files[b]);
    }
    NewPipe(files, pipes, a, b, p);
  }

  lemma NewPipe(files: map<Address, OpenFile>, pipes: map<Address, Pipe>, a: Address, b: Address, p: Address)
    requires Piped(files, pipes) && a != b && a in files && b in files && files[a].pipe == None && files[b].pipe == None && p !in pipes
    ensures Piped(EndFiles(files, a, b, OpenFile(1, Some(p))), pipes[p := Pipe(Some(a), Some(b))])
  {
    var files' := EndFiles(files, a, b, OpenFile(1, Some(p)));
    var pipes' := pipes[p := Pipe(Some(a), Some(b))];
    forall c | c in files' && files'[c].pipe.Some?
      ensures files'[c].pipe.value in pipes' && IsEnd(pipes'[files'[c].pipe.value], c)
    {
      if c != a && c != b {
        assert IsEnd(pipes[files[c].pipe.value], c);
      }
    }
    forall q, c: Address | q in pipes' && IsEnd(pipes'[q], c)
      ensures c in files' && files'[c].pipe == Some(q)
    {
      if q != p {
        assert IsEnd(pipes[q], c);
      }
    }
  }

  /** Counts have been raised for the first n slots. */
  ghost predicate Raised(was: map<Address, OpenFile>, now: map<Address, OpenFile>, table: Table, n: nat)
    requires n <= |table|
  {
    now.Keys == was.Keys && forall a | a in was :: now[a] == was[a].(count := was[a].count + Occurs(table, a, n))
  }

  lemma RaisedNone(was: map<Address, OpenFile>, table: Table)
    ensures Raised(was, was, table, 0)
  {
  }

  /** The next slot is counted by raising the count of the file it names. */
  lemma RaisedNext(was: map<Address, OpenFile>, now: map<Address, OpenFile>, table: Table, n: nat)
    requires n < |table| && Raised(was, now, table, n)
    ensures table[n].None? ==> Raised(was, now, table, n + 1)
    ensures table[n].Some? && table[n].value in now ==>
              Raised(was, now[table[n].value := now[table[n].value].(count := now[table[n].value].count + 1)], table, n + 1)
  {
  }

  lemma RaisedAt(was: map<Address, OpenFile>, now: map<Address, OpenFile>, table: Table, n: nat, a: Address)
    requires n <= |table| && Raised(was, now, table, n) && a in was
    ensures a in now && (now[a].count == 0 <==> was[a].count == 0 && Occurs(table, a, n) == 0)
  {
    hide Occurs;
  }

  lemma RaisedAll(was: map<Address, OpenFile>, now: map<Address, OpenFile>, table: Table, n: nat)
    requires n <= |table| && Raised(was, now, table, n)
    ensures now.Keys == was.Keys && forall a | a in was :: now[a] == was[a].(count := was[a].count + Occurs(table, a, n))
    ensures forall a | a in was :: now[a].pipe == was[a].pipe
  {
    hide Occurs;
  }

  /** A table more, and the counts of what its first slots name raised: right exactly when the slot past them names nothing. */
  lemma ForkStep(tables: Tables, files: map<Address, OpenFile>, reserved: set<Address>, child: TaskId, parent: TaskId, now: map<Address, OpenFile>)
    requires Counted(tables, files, reserved) && child !in tables && parent in tables && now.Keys == files.Keys
    requires forall i | 0 <= i < MAX_OPEN_FILES && tables[parent][i].Some? :: tables[parent][i].value !in reserved
    requires forall a | a in files ::
               now[a] == files[a].(count := files[a].count + Occurs(tables[parent], a, MAX_OPEN_FILES))
    ensures Counted(tables[child := tables[parent]], now, reserved) <==> tables[parent][MAX_OPEN_FILES] == None
  {
    var table := tables[parent];
    var after := tables[child := table];
    forall a | a in files
      ensures CountRight(after, reserved, a, now[a]) <==> table[MAX_OPEN_FILES] != Some(a)
    {
      assert CountRight(tables, reserved, a, files[a]);
      RefsWithTable(tables, child, table, a);
      assert Occurs(table, a, SLOTS) == Occurs(table, a, MAX_OPEN_FILES) + (if table[MAX_OPEN_FILES] == Some(a) then 1 else 0);
    }
    if table[MAX_OPEN_FILES].Some? {
      assert table[MAX_OPEN_FILES].value in files;
    } else {
      assert NoneDangles(after, now);
    }
  }

  /** A task without descriptors leaves no trace. */
  lemma ExitStep(tables: Tables, files: map<Address, OpenFile>, reserved: set<Address>, t: TaskId)
    requires Counted(tables, files, reserved) && t in tables
    requires forall i | 0 <= i < MAX_OPEN_FILES :: tables[t][i] == None
    ensures Counted(tables - {t}, files, reserved) <==> tables[t][MAX_OPEN_FILES] == None
  {
    var rest := tables - {t};
    var table := tables[t];
    assert rest[t := table] == tables;
    forall a | a in files
      ensures CountRight(rest, reserved, a, files[a]) <==> table[MAX_OPEN_FILES] != Some(a)
    {
      assert CountRight(tables, reserved, a, files[a]);
      RefsWithTable(rest, t, table, a);
      assert Occurs(table, a, SLOTS) == Occurs(table, a, MAX_OPEN_FILES) + (if table[MAX_OPEN_FILES] == Some(a) then 1 else 0);
    }
    if table[MAX_OPEN_FILES].Some? {
      assert table[MAX_OPEN_FILES].value in files;
    } else {
      assert NoneDangles(rest, files);
    }
  }

  /** An empty table changes nothing. */
  lemma EmptyTable(tables: Tables, files: map<Address, OpenFile>, reserved: set<Address>, t: TaskId)
    requires Counted(tables, files, reserved) && t !in tables
    ensures Counted(tables[t := seq(SLOTS, i => None)], files, reserved)
  {
    var table: Table := seq(SLOTS, i => None);
    var now := tables[t := table];
    forall a | a in files
      ensures CountRight(now, reserved, a, files[a])
    {
      assert CountRight(tables, reserved, a, files[a]);
      RefsWithTable(tables, t, table, a);
    }
  }

  /** A file that is being opened has its one slot and no other. */
  lemma FirstSlot(tables: Tables, files: map<Address, OpenFile>, reserved: set<Address>, t: TaskId, i: nat)
    requires Counted(tables, files, reserved) && t in tables && i < SLOTS && tables[t][i].Some? && tables[t][i].value in reserved
    ensures files[tables[t][i].value].count == 0 && Occurs(tables[t], tables[t][i].value, i) == 0
  {
    var a := tables[t][i].value;
    SlotOpen(tables, files, reserved, t, i);
    if Occurs(tables[t], a, i) > 0 {
      var j :| 0 <= j < i && tables[t][j] == Some(a);
      TwoRefs(tables, a, (t, i), (t, j));
    }
  }

  lemma PipedCounts(files: map<Address, OpenFile>, pipes: map<Address, Pipe>, now: map<Address, OpenFile>)
    requires Piped(files, pipes) && now.Keys == files.Keys && forall a | a in files :: now[a].pipe == files[a].pipe
    ensures Piped(now, pipes)
  {
  }

  /** A slot that names nothing. */
  lemma Dangles(tables: Tables, files: map<Address, OpenFile>, reserved: set<Address>, t: TaskId, fd: nat, a: Address)
    requires t in tables && fd < |tables[t]| && a !in files
    ensures !Counted(SetSlot(tables, t, fd, Some(a)), files, reserved)
  {
    assert SetSlot(tables, t, fd, Some(a))[t][fd] == Some(a);
  }

  /** One task's first n slots are empty; all else is as it was. */
  ghost predicate ClosedBelow(now: Tables, was: Tables, t: TaskId, n: nat) {
    && t in was && now.Keys == was.Keys && |now[t]| == |was[t]|
    && (forall u | u in was && u != t :: now[u] == was[u])
    && (forall j | 0 <= j < |was[t]| :: now[t][j] == if j < n then None else was[t][j])
  }

  lemma ClosedOneMore(now: Tables, was: Tables, t: TaskId, n: nat)
    requires ClosedBelow(now, was, t, n) && n < |was[t]|
    ensures t in now && |now[t]| == |was[t]| && now[t][n] == was[t][n]
    ensures now[t][n] == None ==> ClosedBelow(now, was, t, n + 1)
    ensures ClosedBelow(SetSlot(now, t, n, None), was, t, n + 1)
  {
  }
}
