/** Transactions, savepoints and crash recovery (src/kumdb.c). */
module Transactions {
  /** The data directory is a map from paths to contents. Every file operation is one step, and
    the handle records, in ghost state, every directory the process passes through: `seen`
    after a completed step, `torn` inside the chunked copy of a backup. A crash leaves the
    directory as it was at one of those points, so a property of every recorded directory is
    a property of a crash at any moment.
   */

  const TX_MAX_TABLES: nat := 32
  const TX_MAX_SAVEPOINTS: nat := 8
  const MAX_NAME_LEN: nat := 128
  const COPY_CHUNK: nat := 65536

  type Name = string

  /** The files of a data directory: `t.kdb`, `t.kdb.txbak`, `t.kdb.txbak.sp<depth>`, `.kdb_tx_commit`. */
  datatype Path =
    | TableFile(name: Name)
    | TxBackup(name: Name)
    | SpBackup(name: Name, depth: nat)
    | Marker

  type Files = map<Path, string>

  /** What the disk does to one file copy: nothing amiss, or a failure in that step. Step 0 creates the file, then
      each chunk is one, and a later failure is one of the final flush. */
  datatype Fault = Healthy | FailsAt(step: nat)

  datatype Status = Ok | ErrIo | ErrFull | ErrValidation | ErrExists | ErrNotFound | ErrBadArg

  // ---------------------------------------------------------------- marker text

  /** The commit marker: one table name a line. */
  function MarkerText(names: seq<Name>): string {
    if names == [] then "" else names[0] + "\n" + MarkerText(names[1..])
  }

  /** How many characters `fgets` takes with room for `room` of them: it stops behind a newline. */
  function LineLength(text: string, room: nat): (k: nat)
    ensures k <= |text| && k <= room
    ensures text != "" && room > 0 ==> k > 0
    ensures '\n' !in text[..if k > 0 then k - 1 else 0]
    decreases room
  {
    if text == "" || room == 0 then 0
    else if text[0] == '\n' then 1
    else
      var rest := LineLength(text[1..], room - 1);
      assert text[..rest] == if rest == 0 then "" else [text[0]] + text[1..][..rest - 1];
      1 + rest
  }

  function StripEol(line: string): (r: string)
    ensures |r| <= |line| && r == line[..|r|]
    ensures r != "" ==> r[|r| - 1] != '\n' && r[|r| - 1] != '\r'
  {
    if line != "" && (line[|line| - 1] == '\n' || line[|line| - 1] == '\r')
    then StripEol(line[..|line| - 1]) else line
  }

  /** The names recovery reads back: lines of at most MAX_NAME_LEN - 1 characters, blank ones skipped. */
  function MarkerNames(text: string): seq<Name>
    decreases |text|
  {
    if text == "" then [] else
    var k := LineLength(text, MAX_NAME_LEN - 1);
    var line := StripEol(text[..k]);
    (if line == "" then [] else [line]) + MarkerNames(text[k..])
  }

  /** A name that survives the marker file. */
  predicate ValidName(n: Name) {
    0 < |n| < MAX_NAME_LEN && '\n' !in n && n[|n| - 1] != '\r'
  }

  lemma {:induction false} LineLengthOfName(n: Name, rest: string, room: nat)
    requires '\n' !in n
    ensures LineLength(n + "\n" + rest, room) == if |n| < room then |n| + 1 else room
  {
    var text := n + "\n" + rest;
    if n == "" {
      assert text[0] == '\n';
    } else if room > 0 {
      assert text[1..] == n[1..] + "\n" + rest;
      LineLengthOfName(n[1..], rest, room - 1);
    }
  }

  lemma StripEolOfLine(n: Name, eol: string)
    requires ValidName(n) && (eol == "" || eol == "\n")
    ensures StripEol(n + eol) == n && StripEol("\n") == ""
  {
    assert StripEol("\n") == StripEol("\n"[..0]) == "";
    if eol == "" {
      assert n + eol == n && n[|n| - 1] in n;
    } else {
      StripEolOfLine(n, "");
      assert n + "" == n;
      assert (n + eol)[..|n + eol| - 1] == n;
    }
  }

  /** One line of the marker is read and the rest is read after it. */
  lemma FirstLine(text: string, line: string)
    requires text != "" && LineLength(text, MAX_NAME_LEN - 1) == |line| && text[..|line|] == line
    ensures MarkerNames(text) == (if StripEol(line) == "" then [] else [StripEol(line)]) + MarkerNames(text[|line|..])
  {
    hide LineLength, StripEol;
  }

  lemma ShortLineReadsBack(n: Name, rest: string)
    requires ValidName(n) && |n| < MAX_NAME_LEN - 1
    ensures MarkerNames(n + "\n" + rest) == [n] + MarkerNames(rest)
  {
    hide LineLength, StripEol, MarkerNames;
    var text := n + "\n" + rest;
    LineLengthOfName(n, rest, MAX_NAME_LEN - 1);
    assert text[..|n| + 1] == n + "\n" && text[|n| + 1..] == rest;
    StripEolOfLine(n, "\n");
    FirstLine(text, n + "\n");
  }

  lemma FullLineReadsBack(n: Name, rest: string)
    requires ValidName(n) && |n| == MAX_NAME_LEN - 1
    ensures MarkerNames(n + "\n" + rest) == [n] + MarkerNames(rest)
  {
    hide LineLength, StripEol, MarkerNames;
    var text, tail := n + "\n" + rest, "\n" + rest;
    LineLengthOfName(n, rest, MAX_NAME_LEN - 1);
    assert text[..|n|] == n == n + "" && text[|n|..] == tail;
    StripEolOfLine(n, "");
    FirstLine(text, n);
    LineLengthOfName("", rest, MAX_NAME_LEN - 1);
    assert "" + "\n" + rest == tail;
    assert tail[..1] == "\n" && tail[1..] == rest;
    StripEolOfLine(n, "\n");
    FirstLine(tail, "\n");
  }

  lemma {:induction false} MarkerReadsBack(names: seq<Name>)
    requires forall n :: n in names ==> ValidName(n)
    ensures MarkerNames(MarkerText(names)) == names
  {
    if names != [] {
      var n := names[0];
      assert n in names;
      MarkerReadsBack(names[1..]);
      if |n| < MAX_NAME_LEN - 1 {
        ShortLineReadsBack(n, MarkerText(names[1..]));
      } else {
        FullLineReadsBack(n, MarkerText(names[1..]));
      }
    }
  }

  lemma {:induction false} MarkerYieldsValidNames(text: string)
    ensures forall n :: n in MarkerNames(text) ==> ValidName(n)
    decreases |text|
  {
    if text != "" {
      var k := LineLength(text, MAX_NAME_LEN - 1);
      var line := StripEol(text[..k]);
      MarkerYieldsValidNames(text[k..]);
      if line != "" {
        assert forall i :: 0 <= i < |line| ==> line[i] == text[i];
        assert |line| == k ==> line[|line| - 1] != '\n';
        assert forall i :: 0 <= i < |line| && i < k - 1 ==> line[i] == text[..k - 1][i];
      }
    }
  }

  /** Recovery reads the committed names back exactly when every one of them is a valid name. */
  lemma {:induction false} MarkerRoundTrip(names: seq<Name>)
    ensures MarkerNames(MarkerText(names)) == names <==> forall n :: n in names ==> ValidName(n)
  {
    MarkerYieldsValidNames(MarkerText(names));
    if forall n :: n in names ==> ValidName(n) {
      MarkerReadsBack(names);
    }
  }

  // ---------------------------------------------------------------- recovery, as a function

  function CommittedNames(fs: Files): set<Name> {
    if Marker in fs then set n | n in MarkerNames(fs[Marker]) else {}
  }

  /** A backup that recovery puts back: no marker lists it and its name fits the name buffer. */
  predicate PutsBack(fs: Files, n: Name) {
    TxBackup(n) in fs && n !in CommittedNames(fs) && |n| < MAX_NAME_LEN
  }

  /** Whether table `n` exists once recovery has completed. */
  predicate Survives(fs: Files, n: Name) {
    TableFile(n) in fs || PutsBack(fs, n)
  }

  function RecoveredTable(fs: Files, n: Name): string
    requires Survives(fs, n)
  {
    if PutsBack(fs, n) then fs[TxBackup(n)] else fs[TableFile(n)]
  }

  /** What one completed recovery makes of a directory: tables only, no marker and no backup. */
  ghost function Recovered(fs: Files): Files {
    map p: Path | p in RecoveredPaths(fs) :: RecoveredTable(fs, p.name)
  }

  ghost function RecoveredPaths(fs: Files): (ps: set<Path>)
    ensures forall p :: p in ps <==> p.TableFile? && Survives(fs, p.name)
  {
    (set p | p in fs && p.TableFile?)
    + (set p | p in fs && p.TxBackup? && PutsBack(fs, p.name) :: TableFile(p.name))
  }

  /** Every table of `tables` is present in what recovery makes of `fs`, with the same contents. */
  ghost predicate RecoveryKeeps(fs: Files, tables: Files) {
    forall n: Name :: TableFile(n) in tables ==> SameTable(Recovered(fs), tables, n)
  }

  /** What recovery leaves alone: tables, and backups whose name overflows the name buffer. */
  predicate Settled(p: Path) {
    p.TableFile? || (p.TxBackup? && |p.name| >= MAX_NAME_LEN)
  }

  ghost predicate SameTable(a: Files, b: Files, n: Name) {
    (TableFile(n) in a <==> TableFile(n) in b) && (TableFile(n) in a ==> a[TableFile(n)] == b[TableFile(n)])
  }

  function TablesOf(fs: Files): Files {
    map p | p in fs && p.TableFile? :: fs[p]
  }

  /** No marker and no backup: what `kdb_open` hands to a transaction. Every table name is valid. */
  ghost predicate Clean(fs: Files) {
    forall p :: p in fs ==> p.TableFile? && ValidName(p.name)
  }

  /** Each whole-transaction backup in the directory holds its table's contents at begin. */
  ghost predicate BackupsComplete(fs: Files, start: Files) {
    forall n: Name :: TableFile(n) in start && TxBackup(n) in fs ==> fs[TxBackup(n)] == start[TableFile(n)]
  }

  /** No marker, and a table without a backup is as it was at begin. */
  ghost predicate Uncommitted(fs: Files, start: Files) {
    Marker !in fs
    && forall n: Name :: TableFile(n) in start && TxBackup(n) !in fs ==>
         TableFile(n) in fs && fs[TableFile(n)] == start[TableFile(n)]
  }

  /** Before the marker, recovery gives back the begin contents exactly when no backup is torn. */
  lemma RecoveryOfUncommitted(fs: Files, start: Files)
    requires Uncommitted(fs, start) && Clean(start)
    ensures RecoveryKeeps(fs, start) <==> BackupsComplete(fs, start)
  {
    forall n: Name | TableFile(n) in start
      ensures |n| < MAX_NAME_LEN
    {
      assert ValidName(TableFile(n).name);
    }
    if RecoveryKeeps(fs, start) {
      forall n: Name | TableFile(n) in start && TxBackup(n) in fs
        ensures fs[TxBackup(n)] == start[TableFile(n)]
      {
        assert Survives(fs, n);
      }
    }
  }

  /** A directory met inside the copy of `src` to `dst`: a prefix of the source has been written. */
  ghost predicate TornCopy(s: Files, before: Files, dst: Path, src: string) {
    exists k :: 0 <= k <= |src| && s == before[dst := src[..k]]
  }

  // One file step of recovery leaves the outcome of recovery as it was.

  lemma DroppingCommittedBackup(fs: Files, n: Name)
    requires n in CommittedNames(fs)
    ensures CommittedNames(fs - {TxBackup(n)}) == CommittedNames(fs)
    ensures Recovered(fs - {TxBackup(n)}) == Recovered(fs)
  {
    assert CommittedNames(fs - {TxBackup(n)}) == CommittedNames(fs);
  }

  lemma DroppingMarker(fs: Files)
    requires forall n :: n in CommittedNames(fs) ==> TxBackup(n) !in fs
    ensures Recovered(fs - {Marker}) == Recovered(fs)
  {
  }

  lemma DroppingSavepointBackup(fs: Files, n: Name, d: nat)
    ensures Recovered(fs - {SpBackup(n, d)}) == Recovered(fs)
  {
    assert CommittedNames(fs - {SpBackup(n, d)}) == CommittedNames(fs);
  }

  lemma PuttingBack(fs: Files, n: Name)
    requires Marker !in fs && PutsBack(fs, n)
    ensures Recovered((fs - {TxBackup(n)})[TableFile(n) := fs[TxBackup(n)]]) == Recovered(fs)
  {
  }

  lemma RecoveryIsComplete(fs: Files)
    requires forall p :: p in fs ==> Settled(p)
    ensures Recovered(fs) == TablesOf(fs)
  {
    assert forall n :: !PutsBack(fs, n);
  }

  // ---------------------------------------------------------------- the database handle

  class Database {
    var files: Files
    ghost var seen: set<Files>
    ghost var torn: set<Files>

    method Unlink(p: Path)
      modifies this
      ensures files == old(files) - {p}
      ensures seen == old(seen) + {files} && torn == old(torn)
    {
      files := files - {p};
      seen := seen + {files};
    }

    /** `rename` fails when its source is missing. */
    method Rename(src: Path, dst: Path) returns (st: Status)
      requires src != dst
      modifies this
      ensures st == if src in old(files) then Ok else ErrIo
      ensures files == if st == Ok then (old(files) - {src})[dst := old(files)[src]] else old(files)
      ensures seen == old(seen) + {files} && torn == old(torn)
    {
      st := ErrIo;
      if src in files {
        files := (files - {src})[dst := files[src]];
        st := Ok;
      }
      seen := seen + {files};
    }

    /** One durable write of a whole file. */
    method Write(p: Path, contents: string)
      modifies this
      ensures files == old(files)[p := contents]
      ensures seen == old(seen) + {files} && torn == old(torn)
    {
      files := files[p := contents];
      seen := seen + {files};
    }

    /** Copies a table file in place, chunk by chunk; an I/O error removes what was written. */
    method CopyTable(n: Name, dst: Path, fault: Fault) returns (st: Status)
      requires !dst.TableFile? && dst !in files
      modifies this
      ensures st == if TableFile(n) in old(files) && fault.Healthy? then Ok else ErrIo
      ensures files == if st == Ok then old(files)[dst := old(files)[TableFile(n)]] else old(files)
      ensures seen == old(seen) + {files}
      ensures old(torn) <= torn
      ensures forall s :: s in torn - old(torn) ==>
        TableFile(n) in old(files) && TornCopy(s, old(files), dst, old(files)[TableFile(n)])
    {
      if TableFile(n) !in files {
        seen := seen + {files};
        return ErrIo;
      }
      var src := files[TableFile(n)];
      ghost var before := files;
      var failed := fault == FailsAt(0);
      if failed {
        seen := seen + {files};
        return ErrIo;
      }
      files := files[dst := ""];
      assert files == before[dst := src[..0]];
      assert TornCopy(files, before, dst, src);
      torn := torn + {files};
      var pos, step := 0, 1;
      while pos < |src| && !failed
        invariant 0 <= pos <= |src| && (failed ==> fault.FailsAt?)
        invariant files == before[dst := src[..pos]]
        invariant seen == old(seen) && old(torn) <= torn
        invariant forall s :: s in torn - old(torn) ==> TornCopy(s, before, dst, src)
        decreases |src| - pos, !failed
      {
        failed := fault == FailsAt(step);
        step := step + 1;
        if !failed {
          var next := if pos + COPY_CHUNK <= |src| then pos + COPY_CHUNK else |src|;
          assert src[..next] == src[..pos] + src[pos..next];
          files := files[dst := files[dst] + src[pos..next]];
          assert files == before[dst := src[..next]];
          assert TornCopy(files, before, dst, src);
          pos := next;
          torn := torn + {files};
        }
      }
      if fault.FailsAt? {
        files := files - {dst};
        assert files == before;
        seen := seen + {files};
        return ErrIo;
      }
      assert src[..pos] == src;
      seen := seen + {files};
      st := Ok;
    }

    /** Recovery with a marker present: the listed backups go, then the marker. */
    method FinishCommit()
      requires Marker in files
      modifies this
      ensures Marker !in files && Recovered(files) == Recovered(old(files))
      ensures forall s :: s in seen - old(seen) ==> Recovered(s) == Recovered(old(files))
      ensures old(seen) <= seen && torn == old(torn)
    {
      hide Recovered, MarkerNames;
      ghost var outcome := Recovered(files);
      ghost var committed := CommittedNames(files);
      var lines := MarkerNames(files[Marker]);
      var i := 0;
      while i < |lines|
        invariant 0 <= i <= |lines|
        invariant Marker in files && CommittedNames(files) == committed
        invariant Recovered(files) == outcome && old(seen) <= seen && torn == old(torn)
        invariant forall s :: s in seen - old(seen) ==> Recovered(s) == outcome
        invariant forall j :: 0 <= j < i ==> TxBackup(lines[j]) !in files
      {
        assert lines[i] in committed;
        DroppingCommittedBackup(files, lines[i]);
        Unlink(TxBackup(lines[i]));
        i := i + 1;
      }
      DroppingMarker(files);
      Unlink(Marker);
    }

    /** Handles one directory entry met by recovery. */
    method RecoverEntry(e: Path)
      requires Marker !in files
      modifies this
      ensures Marker !in files && Recovered(files) == Recovered(old(files))
      ensures seen == old(seen) || seen == old(seen) + {files}
      ensures torn == old(torn)
      ensures forall p :: p in files ==> p in old(files) || p.TableFile?
      ensures e in files ==> Settled(e)
    {
      if e.SpBackup? {
        DroppingSavepointBackup(files, e.name, e.depth);
        Unlink(e);
      } else if e.TxBackup? && |e.name| < MAX_NAME_LEN {
        if e in files {
          PuttingBack(files, e.name);
        }
        var st := Rename(e, TableFile(e.name));
      }
    }

    /** Run when a data directory is opened for writing: finishes a commit or undoes a transaction. */
    method Recover()
      modifies this
      ensures TablesOf(files) == Recovered(old(files))
      ensures forall p :: p in files ==> Settled(p)
      ensures forall s :: s in seen - old(seen) ==> Recovered(s) == Recovered(old(files))
      ensures old(seen) <= seen && torn == old(torn)
    {
      ghost var outcome := Recovered(files);
      if Marker in files {
        FinishCommit();
      }
      var entries := files.Keys;
      while entries != {}
        invariant Marker !in files
        invariant Recovered(files) == outcome && old(seen) <= seen && torn == old(torn)
        invariant forall s :: s in seen - old(seen) ==> Recovered(s) == outcome
        invariant forall p :: p in files && p !in entries ==> Settled(p)
        decreases |entries|
      {
        var e :| e in entries;
        RecoverEntry(e);
        entries := entries - {e};
      }
      RecoveryIsComplete(files);
    }
  }

  // ---------------------------------------------------------------- the transaction's bookkeeping

  /** A table a level has touched: backed up, or remembered as not existing yet. */
  datatype Tracked = Tracked(name: Name, isNew: bool)

  datatype Savepoint = Savepoint(name: string, tables: seq<Tracked>)

  /** The transaction as a whole, or the savepoint at one stack depth. */
  datatype Level = Whole | At(depth: nat)

  function BackupAt(lvl: Level, n: Name): Path {
    match lvl
    case Whole => TxBackup(n)
    case At(d) => SpBackup(n, d)
  }

  predicate IsBackup(lvl: Level, p: Path) {
    match lvl
    case Whole => p.TxBackup?
    case At(d) => p.SpBackup? && p.depth == d
  }

  function NamesOf(tracked: seq<Tracked>): set<Name> {
    set t | t in tracked :: t.name
  }

  ghost predicate SamePath(a: Files, b: Files, p: Path) {
    (p in a <==> p in b) && (p in a ==> a[p] == b[p])
  }

  lemma SameFiles(a: Files, b: Files)
    requires forall p :: SamePath(a, b, p)
    ensures a == b
  {
    forall p
      ensures p in a <==> p in b
    {
      assert SamePath(a, b, p);
    }
    forall p | p in a
      ensures a[p] == b[p]
    {
      assert SamePath(a, b, p);
    }
  }

  /** The two directories differ in backups of one level at most. */
  ghost predicate SameBut(a: Files, b: Files, lvl: Level) {
    forall p :: !IsBackup(lvl, p) ==> SamePath(a, b, p)
  }

  /** What a level knows about one table it tracks: its contents when the level was created. */
  ghost predicate Undoable(fs: Files, snap: Files, t: Tracked, lvl: Level) {
    ValidName(t.name) &&
    if t.isNew then TableFile(t.name) !in snap && BackupAt(lvl, t.name) !in fs
    else TableFile(t.name) in snap && BackupAt(lvl, t.name) in fs
         && fs[BackupAt(lvl, t.name)] == snap[TableFile(t.name)]
  }

  /** The invariant of a level created at directory `snap`: a table it tracks can be put back,
      and a table it does not track is unchanged since then. */
  ghost predicate LevelOk(fs: Files, snap: Files, tracked: seq<Tracked>, lvl: Level) {
    && (forall i, j :: 0 <= i < j < |tracked| ==> tracked[i].name != tracked[j].name)
    && (forall t :: t in tracked ==> Undoable(fs, snap, t, lvl))
    && (forall n :: n !in NamesOf(tracked) ==> BackupAt(lvl, n) !in fs && SameTable(fs, snap, n))
  }

  lemma LevelFrame(a: Files, b: Files, snap: Files, tracked: seq<Tracked>, lvl: Level)
    requires LevelOk(a, snap, tracked, lvl)
    requires forall n :: SamePath(a, b, BackupAt(lvl, n))
    requires forall n :: n !in NamesOf(tracked) ==> SameTable(a, b, n)
    ensures LevelOk(b, snap, tracked, lvl)
  {
    forall t | t in tracked
      ensures Undoable(b, snap, t, lvl)
    {
      assert Undoable(a, snap, t, lvl) && SamePath(a, b, BackupAt(lvl, t.name));
    }
    forall n | n !in NamesOf(tracked)
      ensures BackupAt(lvl, n) !in b && SameTable(b, snap, n)
    {
      assert SamePath(a, b, BackupAt(lvl, n)) && SameTable(a, b, n) && SameTable(a, snap, n);
    }
  }

  ghost predicate TxInv(fs: Files, start: Files, tables: seq<Tracked>, sps: seq<Savepoint>, snaps: seq<Files>) {
    && Clean(start)
    && Marker !in fs
    && |snaps| == |sps| <= TX_MAX_SAVEPOINTS
    && LevelOk(fs, start, tables, Whole)
    && (forall d :: 0 <= d < |sps| ==> LevelOk(fs, snaps[d], sps[d].tables, At(d)))
    && (forall d :: 0 <= d < |sps| ==> NamesOf(sps[d].tables) <= NamesOf(tables))
    && (forall d, e :: 0 <= d < e < |sps| ==> NamesOf(sps[e].tables) <= NamesOf(sps[d].tables))
    && (forall n, d :: d >= |sps| ==> SpBackup(n, d) !in fs)
  }

  /** The whole-transaction level alone decides that a crash now is undone completely. */
  lemma WholeLevelRecovers(fs: Files, start: Files, tables: seq<Tracked>)
    requires Clean(start) && Marker !in fs && LevelOk(fs, start, tables, Whole)
    ensures RecoveryKeeps(fs, start) && Uncommitted(fs, start) && BackupsComplete(fs, start)
  {
    forall n: Name | TableFile(n) in start
      ensures TxBackup(n) !in fs ==> TableFile(n) in fs && fs[TableFile(n)] == start[TableFile(n)]
      ensures TxBackup(n) in fs ==> fs[TxBackup(n)] == start[TableFile(n)]
    {
      assert BackupAt(Whole, n) == TxBackup(n);
      if n in NamesOf(tables) {
        var t :| t in tables && t.name == n;
        assert Undoable(fs, start, t, Whole);
      }
    }
    RecoveryOfUncommitted(fs, start);
  }

  // How the invariant moves when one level tracks a table, or a tracked table is written.

  lemma UncommittedFrame(fs: Files, s: Files, start: Files, n: Name)
    requires Uncommitted(fs, start) && SameTable(fs, start, n)
    requires forall p :: p != TxBackup(n) ==> SamePath(fs, s, p)
    ensures Uncommitted(s, start)
  {
    assert SamePath(fs, s, Marker);
    forall m: Name | TableFile(m) in start && TxBackup(m) !in s
      ensures TableFile(m) in s && s[TableFile(m)] == start[TableFile(m)]
    {
      assert SamePath(fs, s, TableFile(m));
      if m != n {
        assert SamePath(fs, s, TxBackup(m));
      }
    }
  }

  lemma SavepointBackupsDoNotMatter(fs: Files, s: Files, start: Files)
    requires forall p: Path :: !p.SpBackup? ==> SamePath(fs, s, p)
    ensures Uncommitted(fs, start) ==> Uncommitted(s, start)
    ensures BackupsComplete(fs, start) ==> BackupsComplete(s, start)
  {
    assert SamePath(fs, s, Marker);
    forall m: Name
      ensures SamePath(fs, s, TableFile(m)) && SamePath(fs, s, TxBackup(m))
    {
    }
  }

  lemma AfterWholeTrack(fs: Files, fs': Files, start: Files, tables: seq<Tracked>, out: seq<Tracked>,
                        sps: seq<Savepoint>, snaps: seq<Files>, n: Name)
    requires TxInv(fs, start, tables, sps, snaps)
    requires forall p :: p != TxBackup(n) ==> SamePath(fs, fs', p)
    requires LevelOk(fs', start, out, Whole) && NamesOf(tables) <= NamesOf(out)
    ensures TxInv(fs', start, out, sps, snaps)
  {
    assert SamePath(fs, fs', Marker);
    forall d | 0 <= d < |sps|
      ensures LevelOk(fs', snaps[d], sps[d].tables, At(d))
    {
      forall m
        ensures SamePath(fs, fs', BackupAt(At(d), m)) && SameTable(fs, fs', m)
      {
        assert SamePath(fs, fs', TableFile(m));
      }
      LevelFrame(fs, fs', snaps[d], sps[d].tables, At(d));
    }
    forall m, d | d >= |sps|
      ensures SpBackup(m, d) !in fs'
    {
      assert SamePath(fs, fs', SpBackup(m, d));
    }
  }

  lemma AfterSavepointTrack(fs: Files, fs': Files, start: Files, tables: seq<Tracked>,
                            sps: seq<Savepoint>, snaps: seq<Files>, n: Name, d: nat, out: seq<Tracked>)
    requires TxInv(fs, start, tables, sps, snaps) && d < |sps|
    requires forall p :: p != SpBackup(n, d) ==> SamePath(fs, fs', p)
    requires LevelOk(fs', snaps[d], out, At(d)) && NamesOf(out) == NamesOf(sps[d].tables) + {n}
    requires n in NamesOf(tables) && forall e :: 0 <= e < d ==> n in NamesOf(sps[e].tables)
    ensures TxInv(fs', start, tables, sps[d := sps[d].(tables := out)], snaps)
  {
    assert SamePath(fs, fs', Marker);
    forall m
      ensures SamePath(fs, fs', TxBackup(m)) && SameTable(fs, fs', m)
    {
      assert SamePath(fs, fs', TableFile(m));
    }
    LevelFrame(fs, fs', start, tables, Whole);
    forall e | 0 <= e < |sps| && e != d
      ensures LevelOk(fs', snaps[e], sps[e].tables, At(e))
    {
      forall m
        ensures SamePath(fs, fs', BackupAt(At(e), m))
      {
      }
      LevelFrame(fs, fs', snaps[e], sps[e].tables, At(e));
    }
    forall m, e | e >= |sps|
      ensures SpBackup(m, e) !in fs'
    {
      assert SamePath(fs, fs', SpBackup(m, e));
    }
  }

  /** The transaction and every active savepoint track the table. */
  ghost predicate TrackedEverywhere(n: Name, tables: seq<Tracked>, sps: seq<Savepoint>) {
    n in NamesOf(tables) && forall d :: 0 <= d < |sps| ==> n in NamesOf(sps[d].tables)
  }

  lemma AfterTableWrite(fs: Files, start: Files, tables: seq<Tracked>, sps: seq<Savepoint>, snaps: seq<Files>,
                        n: Name, contents: string)
    requires TxInv(fs, start, tables, sps, snaps) && TrackedEverywhere(n, tables, sps)
    ensures TxInv(fs[TableFile(n) := contents], start, tables, sps, snaps)
  {
    var fs' := fs[TableFile(n) := contents];
    LevelFrame(fs, fs', start, tables, Whole);
    forall d | 0 <= d < |sps|
      ensures LevelOk(fs', snaps[d], sps[d].tables, At(d))
    {
      LevelFrame(fs, fs', snaps[d], sps[d].tables, At(d));
    }
  }

  /** The disk while a table is being touched: what it does to each level's copy. */
  type Disk = Level -> Fault

  /** A level takes a table it tracks already, or one more while there is room, when the table does not exist yet or
      can be copied. */
  function TrackStatus(fs: Files, tracked: seq<Tracked>, n: Name, lvl: Level, disk: Disk): Status {
    if n in NamesOf(tracked) then Ok
    else if |tracked| >= TX_MAX_TABLES then ErrFull
    else if TableFile(n) in fs && disk(lvl).FailsAt? then ErrIo
    else Ok
  }

  /** The table is remembered once, with a backup if it exists. */
  function Noted(fs: Files, tracked: seq<Tracked>, n: Name): (out: seq<Tracked>)
    ensures NamesOf(out) == NamesOf(tracked) + {n}
  {
    if n in NamesOf(tracked) then tracked
    else
      NamesOfAppend(tracked, Tracked(n, TableFile(n) !in fs));
      tracked + [Tracked(n, TableFile(n) !in fs)]
  }

  /** One level's part of touching a table. */
  method Track(db: Database, tracked: seq<Tracked>, n: Name, lvl: Level, disk: Disk, ghost snap: Files)
    returns (st: Status, out: seq<Tracked>)
    requires ValidName(n) && LevelOk(db.files, snap, tracked, lvl) && db.files in db.seen
    modifies db
    ensures LevelOk(db.files, snap, out, lvl)
    ensures st == TrackStatus(old(db.files), tracked, n, lvl, disk)
    ensures out == if st == Ok then Noted(old(db.files), tracked, n) else tracked
    ensures st != Ok ==> db.files == old(db.files)
    ensures forall p :: p != BackupAt(lvl, n) ==> SamePath(old(db.files), db.files, p)
    ensures db.seen == old(db.seen) + {db.files} && old(db.torn) <= db.torn
    ensures forall s :: s in db.torn - old(db.torn) ==>
      n !in NamesOf(tracked) && forall p :: p != BackupAt(lvl, n) ==> SamePath(old(db.files), s, p)
  {
    st, out := Ok, tracked;
    var i := 0;
    while i < |tracked|
      invariant 0 <= i <= |tracked|
      invariant forall j :: 0 <= j < i ==> tracked[j].name != n
    {
      if tracked[i].name == n {
        assert tracked[i] in tracked;
        return;
      }
      i := i + 1;
    }
    assert n !in NamesOf(tracked);
    assert BackupAt(lvl, n) !in db.files && SameTable(db.files, snap, n);
    if |tracked| >= TX_MAX_TABLES {
      return ErrFull, tracked;
    }
    if TableFile(n) !in db.files {
      out := tracked + [Tracked(n, true)];
    } else {
      st := db.CopyTable(n, BackupAt(lvl, n), disk(lvl));
      if st != Ok {
        return;
      }
      out := tracked + [Tracked(n, false)];
    }
    assert out[|tracked|].name == n;
    NamesOfAppend(tracked, out[|tracked|]);
    forall t | t in out
      ensures Undoable(db.files, snap, t, lvl)
    {
      if t in tracked {
        assert t.name in NamesOf(tracked) && Undoable(old(db.files), snap, t, lvl);
      }
    }
    forall m | m !in NamesOf(out)
      ensures BackupAt(lvl, m) !in db.files && SameTable(db.files, snap, m)
    {
      assert BackupAt(lvl, m) !in old(db.files) && SameTable(old(db.files), snap, m);
    }
  }

  lemma NamesOfAppend(tracked: seq<Tracked>, t: Tracked)
    ensures NamesOf(tracked + [t]) == NamesOf(tracked) + {t.name}
  {
    assert t in tracked + [t];
    forall u | u in tracked
      ensures u in tracked + [t]
    {
    }
  }

  /** The first level to refuse decides; the levels before it track the table by then. */
  function LevelsStatus(fs: Files, sps: seq<Savepoint>, n: Name, disk: Disk, d: nat): Status
    decreases |sps| - d
  {
    if d >= |sps| then Ok
    else
      var st := TrackStatus(fs, sps[d].tables, n, At(d), disk);
      if st != Ok then st else LevelsStatus(fs, sps, n, disk, d + 1)
  }

  function LevelsNoted(fs: Files, sps: seq<Savepoint>, n: Name, disk: Disk, d: nat): (out: seq<Savepoint>)
    requires d <= |sps|
    ensures |out| == |sps|
    decreases |sps| - d
  {
    if d >= |sps| || TrackStatus(fs, sps[d].tables, n, At(d), disk) != Ok then sps
    else LevelsNoted(fs, sps[d := sps[d].(tables := Noted(fs, sps[d].tables, n))], n, disk, d + 1)
  }

  function TouchStatus(fs: Files, tables: seq<Tracked>, sps: seq<Savepoint>, n: Name, disk: Disk): Status {
    var st := TrackStatus(fs, tables, n, Whole, disk);
    if st != Ok then st else LevelsStatus(fs, sps, n, disk, 0)
  }

  /** What the transaction and its savepoints track after a touch. */
  function TablesNoted(fs: Files, tables: seq<Tracked>, n: Name, disk: Disk): seq<Tracked> {
    if TrackStatus(fs, tables, n, Whole, disk) == Ok then Noted(fs, tables, n) else tables
  }

  function SavepointsNoted(fs: Files, tables: seq<Tracked>, sps: seq<Savepoint>, n: Name, disk: Disk):
    (out: seq<Savepoint>)
    ensures |out| == |sps|
  {
    if TrackStatus(fs, tables, n, Whole, disk) == Ok then LevelsNoted(fs, sps, n, disk, 0) else sps
  }

  lemma {:induction false} StatusAhead(fs: Files, sps: seq<Savepoint>, tables: seq<Tracked>, n: Name, disk: Disk,
                                       d: nat, from: nat)
    requires d < from <= |sps|
    ensures LevelsStatus(fs, sps[d := sps[d].(tables := tables)], n, disk, from) == LevelsStatus(fs, sps, n, disk, from)
    decreases |sps| - from
  {
    if from < |sps| {
      StatusAhead(fs, sps, tables, n, disk, d, from + 1);
    }
  }

  /** One level on, in a directory with the same table. */
  lemma LevelsNext(fs: Files, now: Files, sps: seq<Savepoint>, n: Name, disk: Disk, d: nat)
    requires d < |sps| && SameTable(fs, now, n)
    ensures var st := TrackStatus(now, sps[d].tables, n, At(d), disk);
      var next := sps[d := sps[d].(tables := Noted(now, sps[d].tables, n))];
      && (st != Ok ==> LevelsStatus(fs, sps, n, disk, d) == st && LevelsNoted(fs, sps, n, disk, d) == sps)
      && (st == Ok ==> LevelsStatus(fs, sps, n, disk, d) == LevelsStatus(fs, next, n, disk, d + 1)
                       && LevelsNoted(fs, sps, n, disk, d) == LevelsNoted(fs, next, n, disk, d + 1))
  {
    StatusAhead(fs, sps, Noted(now, sps[d].tables, n), n, disk, d, d + 1);
  }

  lemma LevelsEnd(fs: Files, sps: seq<Savepoint>, n: Name, disk: Disk)
    ensures LevelsStatus(fs, sps, n, disk, |sps|) == Ok && LevelsNoted(fs, sps, n, disk, |sps|) == sps
  {
  }

  // ---------------------------------------------------------------- undoing a level

  /** `restored` of the level's tables are as in its snapshot with their backup gone, the others untouched. */
  ghost predicate PartlyRestored(was: Files, s: Files, snap: Files, restored: set<Name>, lvl: Level) {
    && (forall n :: n in restored ==> BackupAt(lvl, n) !in s && SameTable(s, snap, n))
    && (forall n :: n !in restored ==> SamePath(was, s, BackupAt(lvl, n)) && SameTable(was, s, n))
    && (forall p: Path :: !p.TableFile? && !IsBackup(lvl, p) ==> SamePath(was, s, p))
  }

  ghost predicate SomeRestored(was: Files, s: Files, snap: Files, names: set<Name>, lvl: Level) {
    exists done :: done <= names && PartlyRestored(was, s, snap, done, lvl)
  }

  lemma RestoreOne(was: Files, s: Files, snap: Files, restored: set<Name>, lvl: Level, t: Tracked)
    requires PartlyRestored(was, s, snap, restored, lvl) && Undoable(was, snap, t, lvl) && t.name !in restored
    ensures var bak := BackupAt(lvl, t.name);
      PartlyRestored(was, if t.isNew then s - {TableFile(t.name)} else (s - {bak})[TableFile(t.name) := s[bak]],
                     snap, restored + {t.name}, lvl)
  {
    var n, bak := t.name, BackupAt(lvl, t.name);
    assert SamePath(was, s, bak);
    var s' := if t.isNew then s - {TableFile(n)} else (s - {bak})[TableFile(n) := s[bak]];
    forall m | m !in restored + {n}
      ensures SamePath(was, s', BackupAt(lvl, m)) && SameTable(was, s', m)
    {
      assert SamePath(was, s, BackupAt(lvl, m)) && SameTable(was, s, m);
    }
    forall m | m in restored + {n}
      ensures BackupAt(lvl, m) !in s' && SameTable(s', snap, m)
    {
    }
    forall p: Path | !p.TableFile? && !IsBackup(lvl, p)
      ensures SamePath(was, s', p)
    {
      assert SamePath(was, s, p);
    }
  }

  /** Puts every table the level tracks back as it was. Its backups are never missing. */
  method RestoreLevel(db: Database, tracked: seq<Tracked>, lvl: Level, ghost snap: Files) returns (st: Status)
    requires LevelOk(db.files, snap, tracked, lvl) && db.files in db.seen
    modifies db
    ensures st == Ok && db.files in db.seen
    ensures PartlyRestored(old(db.files), db.files, snap, NamesOf(tracked), lvl)
    ensures LevelOk(db.files, snap, [], lvl)
    ensures old(db.seen) <= db.seen && db.torn == old(db.torn)
    ensures forall s :: s in db.seen - old(db.seen) ==>
      SomeRestored(old(db.files), s, snap, NamesOf(tracked), lvl)
  {
    st := Ok;
    ghost var was, done := db.files, {};
    var i := 0;
    while i < |tracked|
      invariant 0 <= i <= |tracked|
      invariant st == Ok && db.files in db.seen
      invariant done == NamesOf(tracked[..i]) <= NamesOf(tracked)
      invariant PartlyRestored(was, db.files, snap, done, lvl)
      invariant old(db.seen) <= db.seen && db.torn == old(db.torn)
      invariant forall s :: s in db.seen - old(db.seen) ==>
        SomeRestored(was, s, snap, NamesOf(tracked), lvl)
    {
      var t := tracked[i];
      assert t in tracked && Undoable(was, snap, t, lvl) && t.name !in done;
      RestoreOne(was, db.files, snap, done, lvl, t);
      if t.isNew {
        db.Unlink(TableFile(t.name));
      } else {
        assert SamePath(was, db.files, BackupAt(lvl, t.name));
        var one := db.Rename(BackupAt(lvl, t.name), TableFile(t.name));
        if one != Ok && st == Ok {
          st := one;
        }
      }
      NamesOfAppend(tracked[..i], t);
      assert tracked[..i + 1] == tracked[..i] + [t];
      done := done + {t.name};
      assert PartlyRestored(was, db.files, snap, done, lvl);
      assert SomeRestored(was, db.files, snap, NamesOf(tracked), lvl);
      i := i + 1;
    }
    assert tracked[..i] == tracked;
    forall n
      ensures BackupAt(lvl, n) !in db.files && SameTable(db.files, snap, n)
    {
      if n !in NamesOf(tracked) {
        assert BackupAt(lvl, n) !in was && SameTable(was, snap, n);
        assert SamePath(was, db.files, BackupAt(lvl, n)) && SameTable(was, db.files, n);
      }
    }
  }

  /** Deletes the backups of the savepoint at depth `d`, restoring nothing. */
  method DropLevel(db: Database, tracked: seq<Tracked>, d: nat)
    requires db.files in db.seen
    requires forall n :: SpBackup(n, d) in db.files ==> Tracked(n, false) in tracked
    modifies db
    ensures db.files in db.seen
    ensures forall n :: SpBackup(n, d) !in db.files
    ensures SameBut(old(db.files), db.files, At(d))
    ensures old(db.seen) <= db.seen && db.torn == old(db.torn)
    ensures forall s :: s in db.seen - old(db.seen) ==>
      SameBut(old(db.files), s, At(d))
  {
    var i := 0;
    while i < |tracked|
      invariant 0 <= i <= |tracked|
      invariant db.files in db.seen
      invariant forall n :: SpBackup(n, d) in db.files ==> Tracked(n, false) in tracked[i..]
      invariant SameBut(old(db.files), db.files, At(d))
      invariant old(db.seen) <= db.seen && db.torn == old(db.torn)
      invariant forall s :: s in db.seen - old(db.seen) ==>
        SameBut(old(db.files), s, At(d))
    {
      var t := tracked[i];
      if !t.isNew {
        db.Unlink(SpBackup(t.name, d));
      }
      assert tracked[i..] == [t] + tracked[i + 1..];
      i := i + 1;
    }
  }

  // ---------------------------------------------------------------- the transaction

  function FindFrom(sps: seq<Savepoint>, name: string, i: nat): (r: int)
    ensures r == -1 || (i <= r < |sps| && sps[r].name == name)
    ensures r == -1 ==> forall k :: i <= k < |sps| ==> sps[k].name != name
    decreases |sps| - i
  {
    if i >= |sps| then -1 else if sps[i].name == name then i else FindFrom(sps, name, i + 1)
  }

  /** The depth of the savepoint with this name, -1 if there is none. */
  function Find(sps: seq<Savepoint>, name: string): int {
    FindFrom(sps, name, 0)
  }

  /** What the name buffer keeps of a savepoint's name. */
  function Cut(name: string): string {
    if |name| < MAX_NAME_LEN then name else name[..MAX_NAME_LEN - 1]
  }

  /** A savepoint is found again under the name it was created with exactly when the name fits the buffer. */
  lemma NewSavepointFound(sps: seq<Savepoint>, name: string)
    requires Find(sps, name) < 0
    ensures Find(sps + [Savepoint(Cut(name), [])], name) == if |name| < MAX_NAME_LEN then |sps| else -1
  {
    var more := sps + [Savepoint(Cut(name), [])];
    assert forall k :: 0 <= k < |sps| ==> more[k].name == sps[k].name;
    assert more[|sps|].name == Cut(name);
    assert Cut(name) == name <==> |name| < MAX_NAME_LEN;
  }

  /** The two directories differ in savepoint backups at depth `from` or deeper at most. */
  ghost predicate SameBelow(a: Files, b: Files, from: nat) {
    forall p: Path :: !(p.SpBackup? && p.depth >= from) ==> SamePath(a, b, p)
  }

  lemma AfterDrop(fs: Files, fs': Files, start: Files, tables: seq<Tracked>,
                  sps: seq<Savepoint>, snaps: seq<Files>, from: nat)
    requires TxInv(fs, start, tables, sps, snaps) && from <= |sps|
    requires SameBelow(fs, fs', from) && forall n, d :: d >= from ==> SpBackup(n, d) !in fs'
    ensures TxInv(fs', start, tables, sps[..from], snaps[..from])
  {
    assert SamePath(fs, fs', Marker);
    forall m
      ensures SamePath(fs, fs', TxBackup(m)) && SameTable(fs, fs', m)
    {
      assert SamePath(fs, fs', TableFile(m));
    }
    LevelFrame(fs, fs', start, tables, Whole);
    forall e | 0 <= e < from
      ensures LevelOk(fs', snaps[e], sps[e].tables, At(e))
    {
      forall m
        ensures SamePath(fs, fs', BackupAt(At(e), m))
      {
      }
      LevelFrame(fs, fs', snaps[e], sps[e].tables, At(e));
    }
  }

  lemma LevelBackupsAreTracked(fs: Files, snap: Files, tracked: seq<Tracked>, lvl: Level, n: Name)
    requires LevelOk(fs, snap, tracked, lvl) && BackupAt(lvl, n) in fs
    ensures Tracked(n, false) in tracked
  {
    assert n in NamesOf(tracked);
    var t :| t in tracked && t.name == n;
    assert Undoable(fs, snap, t, lvl);
  }

  /** Every directory recorded since begin is undone completely by a crash at that point, unless the
      crash tears a backup. */
  ghost predicate Recorded(seen: set<Files>, torn: set<Files>, start: Files) {
    && (forall s :: s in seen ==> RecoveryKeeps(s, start))
    && (forall s :: s in torn ==> (RecoveryKeeps(s, start) <==> BackupsComplete(s, start)))
  }

  lemma OneMoreRecorded(seen: set<Files>, torn: set<Files>, fs: Files, start: Files)
    requires Recorded(seen, torn, start) && RecoveryKeeps(fs, start)
    ensures Recorded(seen + {fs}, torn, start)
  {
    hide RecoveryKeeps, BackupsComplete;
  }

  lemma InvariantRecovers(fs: Files, start: Files, tables: seq<Tracked>, sps: seq<Savepoint>, snaps: seq<Files>)
    requires TxInv(fs, start, tables, sps, snaps)
    ensures RecoveryKeeps(fs, start)
  {
    WholeLevelRecovers(fs, start, tables);
  }

  lemma StillRecovers(before: Files, fs: Files, s: Files, start: Files, lvl: Level, from: nat)
    requires Uncommitted(before, start) && BackupsComplete(before, start) && Clean(start)
    requires SameBelow(before, fs, from) && lvl.At? && SameBut(fs, s, lvl)
    ensures RecoveryKeeps(s, start)
  {
    SavepointBackupsDoNotMatter(before, fs, start);
    SavepointBackupsDoNotMatter(fs, s, start);
    RecoveryOfUncommitted(s, start);
  }

  lemma RestoreKeepsWholeLevel(fs: Files, s: Files, start: Files, tables: seq<Tracked>, snap: Files,
                               names: set<Name>, d: nat)
    requires LevelOk(fs, start, tables, Whole) && Marker !in fs && names <= NamesOf(tables)
    requires SomeRestored(fs, s, snap, names, At(d))
    ensures LevelOk(s, start, tables, Whole) && Marker !in s
  {
    var done :| done <= names && PartlyRestored(fs, s, snap, done, At(d));
    assert SamePath(fs, s, Marker);
    forall m
      ensures SamePath(fs, s, BackupAt(Whole, m))
      ensures m !in NamesOf(tables) ==> SameTable(fs, s, m)
    {
    }
    LevelFrame(fs, s, start, tables, Whole);
  }

  lemma AfterRestore(fs: Files, fs': Files, start: Files, tables: seq<Tracked>,
                     sps: seq<Savepoint>, snaps: seq<Files>, d: nat)
    requires TxInv(fs, start, tables, sps, snaps) && |sps| == d + 1
    requires PartlyRestored(fs, fs', snaps[d], NamesOf(sps[d].tables), At(d))
    requires LevelOk(fs', snaps[d], [], At(d))
    ensures TxInv(fs', start, tables, sps[d := sps[d].(tables := [])], snaps)
  {
    assert SomeRestored(fs, fs', snaps[d], NamesOf(sps[d].tables), At(d));
    RestoreKeepsWholeLevel(fs, fs', start, tables, snaps[d], NamesOf(sps[d].tables), d);
    forall e | 0 <= e < d
      ensures LevelOk(fs', snaps[e], sps[e].tables, At(e))
    {
      forall m
        ensures SamePath(fs, fs', BackupAt(At(e), m))
        ensures m !in NamesOf(sps[e].tables) ==> SameTable(fs, fs', m)
      {
      }
      LevelFrame(fs, fs', snaps[e], sps[e].tables, At(e));
    }
    forall m, e | e > d
      ensures SpBackup(m, e) !in fs'
    {
      assert SamePath(fs, fs', SpBackup(m, e));
    }
  }

  lemma RestoringWholeRecovers(fs: Files, s: Files, start: Files, tables: seq<Tracked>)
    requires Clean(start) && Marker !in fs && LevelOk(fs, start, tables, Whole)
    requires SomeRestored(fs, s, start, NamesOf(tables), Whole)
    ensures RecoveryKeeps(s, start)
  {
    WholeLevelRecovers(fs, start, tables);
    var done :| done <= NamesOf(tables) && PartlyRestored(fs, s, start, done, Whole);
    assert SamePath(fs, s, Marker);
    forall n: Name | TableFile(n) in start
      ensures TxBackup(n) !in s ==> TableFile(n) in s && s[TableFile(n)] == start[TableFile(n)]
      ensures TxBackup(n) in s ==> s[TxBackup(n)] == start[TableFile(n)]
    {
      assert BackupAt(Whole, n) == TxBackup(n);
      if n !in done {
        assert SamePath(fs, s, TxBackup(n)) && SameTable(fs, s, n);
      }
    }
    RecoveryOfUncommitted(s, start);
  }

  /** Between the marker's write and its deletion: the tables are final, and only listed backups remain. */
  ghost predicate Committing(fs: Files, s: Files, backedUp: seq<Name>) {
    && Marker in s && MarkerNames(s[Marker]) == backedUp
    && (forall n :: SameTable(fs, s, n))
    && (forall n :: TxBackup(n) in s ==> n in backedUp)
    && (forall n, d :: SpBackup(n, d) !in s)
  }

  lemma CommittingRecovers(fs: Files, s: Files, backedUp: seq<Name>)
    requires Committing(fs, s, backedUp)
    ensures Recovered(s) == TablesOf(fs)
  {
    forall n
      ensures !PutsBack(s, n)
    {
      if TxBackup(n) in s {
        assert n in backedUp;
      }
    }
    forall p: Path
      ensures SamePath(Recovered(s), TablesOf(fs), p)
    {
      if p.TableFile? {
        assert SameTable(fs, s, p.name);
      }
    }
    SameFiles(Recovered(s), TablesOf(fs));
  }

  lemma SameBackups(a: Files, b: Files, backedUp: seq<Name>)
    requires SameBelow(a, b, 0) && forall n :: n in backedUp <==> TxBackup(n) in b
    ensures backedUp != [] <==> exists n: Name :: TxBackup(n) in a
  {
    assert forall n: Name :: SamePath(a, b, TxBackup(n));
    assert backedUp != [] ==> backedUp[0] in backedUp;
  }

  /** The marker lists all backups there are once no savepoint is left. */
  lemma MarkerWritten(fs: Files, backedUp: seq<Name>, start: Files, tables: seq<Tracked>, snaps: seq<Files>)
    requires TxInv(fs, start, tables, [], snaps)
    requires forall n :: n in backedUp <==> TxBackup(n) in fs
    requires forall n :: n in backedUp ==> ValidName(n)
    ensures Marker !in fs && Committing(fs, fs[Marker := MarkerText(backedUp)], backedUp)
  {
    hide MarkerNames, MarkerText;
    MarkerReadsBack(backedUp);
  }

  lemma DroppingKeepsCommitting(fs: Files, s: Files, backedUp: seq<Name>, n: Name)
    requires Committing(fs, s, backedUp)
    ensures Committing(fs, s - {TxBackup(n)}, backedUp)
  {
    forall m
      ensures SameTable(fs, s - {TxBackup(n)}, m)
    {
      assert SameTable(fs, s, m);
    }
  }

  lemma OnlyTablesLeft(fs: Files, s: Files, backedUp: seq<Name>)
    requires Committing(fs, s, backedUp) && forall n :: TxBackup(n) !in s
    ensures s - {Marker} == TablesOf(fs) && TablesOf(s - {Marker}) == s - {Marker}
  {
    forall p: Path
      ensures SamePath(s - {Marker}, TablesOf(fs), p)
    {
      if p.TableFile? {
        assert SameTable(fs, s, p.name);
      }
    }
    SameFiles(s - {Marker}, TablesOf(fs));
    assert TablesOf(TablesOf(fs)) == TablesOf(fs);
  }

  lemma NothingBackedUp(fs: Files, start: Files, tables: seq<Tracked>, snaps: seq<Files>)
    requires TxInv(fs, start, tables, [], snaps) && forall n: Name :: TxBackup(n) !in fs
    ensures fs == TablesOf(fs)
  {
    assert forall p: Path :: p in fs && p.SpBackup? ==> SpBackup(p.name, p.depth) == p;
  }

  lemma SameTablesBelow(a: Files, b: Files)
    requires SameBelow(a, b, 0)
    ensures (forall m :: SameTable(a, b, m)) && TablesOf(a) == TablesOf(b)
  {
    forall m
      ensures SameTable(a, b, m)
    {
      assert SamePath(a, b, TableFile(m));
    }
    SameTables(a, b);
  }

  lemma SameTables(a: Files, b: Files)
    requires forall m :: SameTable(a, b, m)
    ensures TablesOf(a) == TablesOf(b)
  {
    forall p: Path
      ensures SamePath(TablesOf(a), TablesOf(b), p)
    {
      assert p.TableFile? ==> SameTable(a, b, p.name);
    }
    SameFiles(TablesOf(a), TablesOf(b));
  }

  lemma WrittenTables(fs: Files, n: Name, contents: string)
    ensures TablesOf(fs[TableFile(n) := contents]) == TablesOf(fs)[TableFile(n) := contents]
  {
  }

  class Transaction {
    const db: Database
    var tables: seq<Tracked>
    var savepoints: seq<Savepoint>
    var failed: bool
    var active: bool
    ghost var start: Files
    ghost var snaps: seq<Files>

    ghost predicate Valid()
      reads this, db
    {
      active ==>
        && TxInv(db.files, start, tables, savepoints, snaps)
        && db.files in db.seen && Recorded(db.seen, db.torn, start)
    }

    constructor Begin(db: Database)
      requires Clean(db.files)
      modifies db
      ensures Valid() && active && !failed && this.db == db && tables == [] && savepoints == []
      ensures start == db.files == old(db.files)
    {
      this.db := db;
      tables, savepoints, failed, active := [], [], false, true;
      start, snaps := db.files, [];
      new;
      db.seen, db.torn := {db.files}, {};
      WholeLevelRecovers(db.files, start, tables);
    }

    /** Makes the transaction and every active savepoint able to undo what comes next on `n`. */
    method Touch(n: Name, disk: Disk) returns (st: Status)
      requires Valid() && active && ValidName(n)
      modifies this, db
      ensures Valid() && active && failed == old(failed)
      ensures st == TouchStatus(old(db.files), old(tables), old(savepoints), n, disk)
      ensures tables == TablesNoted(old(db.files), old(tables), n, disk)
      ensures savepoints == SavepointsNoted(old(db.files), old(tables), old(savepoints), n, disk)
      ensures start == old(start) && snaps == old(snaps)
      ensures forall m :: SameTable(old(db.files), db.files, m)
      ensures st == Ok ==> TrackedEverywhere(n, tables, savepoints)
    {
      hide TxInv, Recorded, TrackStatus, Noted, LevelsStatus, LevelsNoted;
      st := TouchWhole(n, disk);
      if st != Ok {
        return;
      }
      var sp := 0;
      ghost var all := savepoints;
      while sp < |savepoints|
        invariant 0 <= sp <= |savepoints| == |old(savepoints)|
        invariant tables == TablesNoted(old(db.files), old(tables), n, disk) && st == Ok
        invariant LevelsStatus(old(db.files), savepoints, n, disk, sp) == LevelsStatus(old(db.files), all, n, disk, 0)
        invariant LevelsNoted(old(db.files), savepoints, n, disk, sp) == LevelsNoted(old(db.files), all, n, disk, 0)
        invariant Valid() && active && failed == old(failed)
        invariant start == old(start) && snaps == old(snaps)
        invariant forall m :: SameTable(old(db.files), db.files, m)
        invariant n in NamesOf(tables) && forall d :: 0 <= d < sp ==> n in NamesOf(savepoints[d].tables)
      {
        ghost var fs := db.files;
        LevelsNext(old(db.files), fs, savepoints, n, disk, sp);
        st := TouchSavepoint(n, sp, disk);
        forall m
          ensures SameTable(old(db.files), db.files, m)
        {
          assert SameTable(old(db.files), fs, m) && SameTable(fs, db.files, m);
        }
        if st != Ok {
          return;
        }
        sp := sp + 1;
      }
      LevelsEnd(old(db.files), savepoints, n, disk);
    }

    /** The transaction's own part of it. */
    method TouchWhole(n: Name, disk: Disk) returns (st: Status)
      requires Valid() && active && ValidName(n)
      modifies this`tables, db
      ensures Valid()
      ensures st == TrackStatus(old(db.files), old(tables), n, Whole, disk)
      ensures tables == TablesNoted(old(db.files), old(tables), n, disk)
      ensures forall m :: SameTable(old(db.files), db.files, m)
      ensures st == Ok ==> n in NamesOf(tables)
    {
      hide TrackStatus;
      var out;
      WholeLevelRecovers(db.files, start, tables);
      st, out := Track(db, tables, n, Whole, disk, start);
      forall s | s in db.torn - old(db.torn)
        ensures RecoveryKeeps(s, start) <==> BackupsComplete(s, start)
      {
        assert SameTable(old(db.files), start, n);
        UncommittedFrame(old(db.files), s, start, n);
        RecoveryOfUncommitted(s, start);
      }
      AfterWholeTrack(old(db.files), db.files, start, tables, out, savepoints, snaps, n);
      WholeLevelRecovers(db.files, start, out);
      tables := out;
      forall m
        ensures SameTable(old(db.files), db.files, m)
      {
        assert SamePath(old(db.files), db.files, TableFile(m));
      }
    }

    method TouchSavepoint(n: Name, sp: nat, disk: Disk) returns (st: Status)
      requires Valid() && active && ValidName(n) && sp < |savepoints|
      requires n in NamesOf(tables) && forall d :: 0 <= d < sp ==> n in NamesOf(savepoints[d].tables)
      modifies this`savepoints, db
      ensures Valid() && |savepoints| == |old(savepoints)|
      ensures st == TrackStatus(old(db.files), old(savepoints)[sp].tables, n, At(sp), disk)
      ensures var was := old(savepoints);
        savepoints == if st == Ok then was[sp := was[sp].(tables := Noted(old(db.files), was[sp].tables, n))] else was
      ensures forall m :: SameTable(old(db.files), db.files, m)
      ensures st == Ok ==> n in NamesOf(savepoints[sp].tables)
    {
      ghost var fs := db.files;
      var out;
      WholeLevelRecovers(fs, start, tables);
      st, out := Track(db, savepoints[sp].tables, n, At(sp), disk, snaps[sp]);
      forall m
        ensures SameTable(fs, db.files, m)
      {
        assert SamePath(fs, db.files, TableFile(m));
      }
      forall s | s in db.torn - old(db.torn)
        ensures RecoveryKeeps(s, start) <==> BackupsComplete(s, start)
      {
        SavepointBackupsDoNotMatter(fs, s, start);
        RecoveryOfUncommitted(s, start);
      }
      SavepointBackupsDoNotMatter(fs, db.files, start);
      RecoveryOfUncommitted(db.files, start);
      if st == Ok {
        AfterSavepointTrack(fs, db.files, start, tables, savepoints, snaps, n, sp, out);
        savepoints := savepoints[sp := savepoints[sp].(tables := out)];
      }
    }

    /** `kdb_tx_add`, `kdb_tx_update` and `kdb_tx_delete`: the operation below writes the table's file
        any number of times, each write one step, and ends with a status of its own. */
    method Mutate(n: Name, writes: seq<string>, result: Status, disk: Disk) returns (st: Status)
      requires Valid() && ValidName(n)
      modifies this, db
      ensures Valid() && active == old(active) && start == old(start) && snaps == old(snaps)
      ensures var touch := TouchStatus(old(db.files), old(tables), old(savepoints), n, disk);
        && st == (if !old(active) then ErrBadArg else if old(failed) then ErrValidation
                  else if touch != Ok then touch else result)
        && failed == (old(failed) || (old(active) && st != Ok))
        && TablesOf(db.files) ==
             (if old(active) && !old(failed) && touch == Ok && writes != []
              then TablesOf(old(db.files))[TableFile(n) := writes[|writes| - 1]] else TablesOf(old(db.files)))
      ensures old(active) && !old(failed) ==>
        && tables == TablesNoted(old(db.files), old(tables), n, disk)
        && savepoints == SavepointsNoted(old(db.files), old(tables), old(savepoints), n, disk)
      ensures !old(active) || old(failed) ==>
        db.files == old(db.files) && tables == old(tables) && savepoints == old(savepoints)
    {
      hide TxInv, Recorded, TouchStatus, TablesNoted, SavepointsNoted, TablesOf, RecoveryKeeps, Uncommitted, LevelOk;
      if !active {
        return ErrBadArg;
      }
      if failed {
        return ErrValidation;
      }
      st := Touch(n, disk);
      SameTables(old(db.files), db.files);
      if st != Ok {
        failed := true;
        return;
      }
      ghost var before := db.files;
      var i := 0;
      while i < |writes|
        invariant 0 <= i <= |writes|
        invariant Valid() && active && !failed
        invariant start == old(start) && snaps == old(snaps)
        invariant tables == TablesNoted(old(db.files), old(tables), n, disk)
        invariant savepoints == SavepointsNoted(old(db.files), old(tables), old(savepoints), n, disk)
        invariant TrackedEverywhere(n, tables, savepoints)
        invariant TablesOf(db.files)
               == if i > 0 then TablesOf(before)[TableFile(n) := writes[i - 1]] else TablesOf(before)
      {
        AfterTableWrite(db.files, start, tables, savepoints, snaps, n, writes[i]);
        WrittenTables(db.files, n, writes[i]);
        ghost var seen := db.seen;
        db.Write(TableFile(n), writes[i]);
        InvariantRecovers(db.files, start, tables, savepoints, snaps);
        OneMoreRecorded(seen, db.torn, db.files, start);
        i := i + 1;
      }
      st := result;
      if st != Ok {
        failed := true;
      }
    }

    /** The client's view of the transaction. */
    ghost function Seen(): View
      requires Valid() && active
      reads this, db
    {
      ViewOf(db.files, failed, tables, savepoints, snaps)
    }

    lemma BackedUpSeen(n: Name)
      requires Valid() && active
      ensures TxBackup(n) in db.files <==> n in Seen().noted && TableFile(n) in start
    {
      BackupsSeen(db.files, start, tables, n);
    }

    lemma ValidSizes()
      requires Valid() && active
      ensures |savepoints| == |snaps|
    {
    }

    /** Any one call. */
    method Do(call: Call) returns (st: Status)
      requires Valid() && active && (call.Write? ==> ValidName(call.name))
      modifies this, db
      ensures Valid() && active && start == old(start)
      ensures st == StatusOf(old(Seen()), call) && Seen() == Step(old(Seen()), call)
    {
      hide TxInv, FramesOf, TablesOf, NotedStatus, AfterNoting, TouchStatus, TablesNoted, SavepointsNoted;
      hide FindFrame, Find;
      ghost var sps, saved := savepoints, snaps;
      ValidSizes();
      SizeOfFrames(sps, saved);
      match call {
        case Write(n, writes, result, disk) =>
          TouchSeen(db.files, failed, start, tables, savepoints, snaps, n, disk);
          st := Mutate(n, writes, result, disk);
        case Create(name) =>
          SameFound(sps, saved, name);
          FramesPushed(sps, saved, Savepoint(Cut(name), []), db.files);
          st := CreateSavepoint(name);
        case Release(name) =>
          SameFound(sps, saved, name);
          st := ReleaseSavepoint(name);
          if st == Ok {
            FramesCut(sps, saved, Find(sps, name));
          }
        case RollbackTo(name) =>
          SameFound(sps, saved, name);
          st := RollbackToSavepoint(name);
          if st == Ok {
            ghost var d := Find(sps, name);
            FramesCut(sps, saved, d);
            FramesPushed(sps[..d], saved[..d], Savepoint(name, []), saved[d]);
            assert saved[..d + 1] == saved[..d] + [saved[d]];
          }
      }
    }

    method FindSavepoint(name: string) returns (idx: int)
      ensures idx == Find(savepoints, name)
    {
      var i := 0;
      while i < |savepoints|
        invariant 0 <= i <= |savepoints|
        invariant FindFrom(savepoints, name, i) == Find(savepoints, name)
      {
        if savepoints[i].name == name {
          return i;
        }
        i := i + 1;
      }
      idx := -1;
    }

    /** Deletes the backups of every savepoint at depth `from` or deeper and forgets those savepoints;
        the tables stay as they are. */
    method PopSavepoints(from: nat)
      requires Valid() && active && from <= |savepoints|
      modifies this`savepoints, this`snaps, db
      ensures Valid() && savepoints == old(savepoints)[..from] && snaps == old(snaps)[..from]
      ensures db.torn == old(db.torn)
      ensures SameBelow(old(db.files), db.files, from)
    {
      ghost var before := db.files;
      WholeLevelRecovers(before, start, tables);
      var sp := from;
      while sp < |savepoints|
        invariant savepoints == old(savepoints) && snaps == old(snaps) && from <= sp <= |savepoints|
        invariant SameBelow(before, db.files, from)
        invariant forall n, d :: from <= d < sp ==> SpBackup(n, d) !in db.files
        invariant forall n, d :: d >= sp ==> SamePath(before, db.files, SpBackup(n, d))
        invariant db.files in db.seen && Recorded(db.seen, db.torn, start) && db.torn == old(db.torn)
      {
        forall n | SpBackup(n, sp) in db.files
          ensures Tracked(n, false) in savepoints[sp].tables
        {
          assert SamePath(before, db.files, SpBackup(n, sp));
          assert BackupAt(At(sp), n) in before;
          LevelBackupsAreTracked(before, snaps[sp], savepoints[sp].tables, At(sp), n);
        }
        ghost var fs := db.files;
        label L:
        DropLevel(db, savepoints[sp].tables, sp);
        forall s | s in db.seen - old@L(db.seen)
          ensures RecoveryKeeps(s, start)
        {
          StillRecovers(before, fs, s, start, At(sp), from);
        }
        forall p: Path | !(p.SpBackup? && p.depth >= from)
          ensures SamePath(before, db.files, p)
        {
          assert SamePath(before, fs, p) && SamePath(fs, db.files, p);
        }
        forall n, d | d >= sp + 1
          ensures SamePath(before, db.files, SpBackup(n, d))
        {
          assert SamePath(before, fs, SpBackup(n, d)) && SamePath(fs, db.files, SpBackup(n, d));
        }
        forall n, d | from <= d < sp
          ensures SpBackup(n, d) !in db.files
        {
          assert SamePath(fs, db.files, SpBackup(n, d));
        }
        sp := sp + 1;
      }
      forall n, d | d >= sp
        ensures SpBackup(n, d) !in db.files
      {
        assert SamePath(before, db.files, SpBackup(n, d));
      }
      AfterDrop(before, db.files, start, tables, savepoints, snaps, from);
      savepoints, snaps := savepoints[..from], snaps[..from];
    }

    /** `kdb_tx_savepoint`: nothing is written; the level starts out tracking nothing. */
    method CreateSavepoint(name: string) returns (st: Status)
      requires Valid()
      modifies this
      ensures Valid() && active == old(active) && db.files == old(db.files) && start == old(start)
      ensures st == (if !old(active) || name == "" then ErrBadArg else if old(failed) then ErrValidation
                     else if Find(old(savepoints), name) >= 0 then ErrExists
                     else if |old(savepoints)| >= TX_MAX_SAVEPOINTS then ErrFull else Ok)
      ensures tables == old(tables) && failed == old(failed)
      ensures st == Ok ==>
        savepoints == old(savepoints) + [Savepoint(Cut(name), [])] && snaps == old(snaps) + [db.files]
      ensures st != Ok ==> savepoints == old(savepoints) && snaps == old(snaps)
    {
      if !active || name == "" {
        return ErrBadArg;
      }
      if failed {
        return ErrValidation;
      }
      var idx := FindSavepoint(name);
      if idx >= 0 {
        return ErrExists;
      }
      if |savepoints| >= TX_MAX_SAVEPOINTS {
        return ErrFull;
      }
      assert LevelOk(db.files, db.files, [], At(|savepoints|));
      savepoints, snaps := savepoints + [Savepoint(Cut(name), [])], snaps + [db.files];
      st := Ok;
    }

    /** `kdb_tx_release_savepoint`: the savepoint and all nested inside it go; no table changes. */
    method ReleaseSavepoint(name: string) returns (st: Status)
      requires Valid()
      modifies this, db
      ensures Valid() && active == old(active) && failed == old(failed) && start == old(start)
      ensures tables == old(tables) && TablesOf(db.files) == TablesOf(old(db.files))
      ensures st == if !old(active) then ErrBadArg else if Find(old(savepoints), name) < 0 then ErrNotFound else Ok
      ensures st == Ok ==> var idx := Find(old(savepoints), name);
        savepoints == old(savepoints)[..idx] && snaps == old(snaps)[..idx]
      ensures st != Ok ==> savepoints == old(savepoints) && snaps == old(snaps) && db.files == old(db.files)
    {
      if !active {
        return ErrBadArg;
      }
      var idx := FindSavepoint(name);
      if idx < 0 {
        return ErrNotFound;
      }
      PopSavepoints(idx);
      SameTables(old(db.files), db.files) by {
        forall m
          ensures SameTable(old(db.files), db.files, m)
        {
          assert SamePath(old(db.files), db.files, TableFile(m));
        }
      }
      st := Ok;
    }

    /** `kdb_tx_rollback_to_savepoint`: every table, including which tables exist, is as it was when
        the savepoint was created. The savepoint itself stays active. */
    method RollbackToSavepoint(name: string) returns (st: Status)
      requires Valid()
      modifies this, db
      ensures Valid() && active == old(active) && start == old(start) && tables == old(tables)
      ensures st == if !old(active) then ErrBadArg else if Find(old(savepoints), name) < 0 then ErrNotFound else Ok
      ensures st == Ok ==> var idx := Find(old(savepoints), name);
        && TablesOf(db.files) == TablesOf(old(snaps)[idx])
        && savepoints == old(savepoints)[..idx] + [Savepoint(name, [])]
        && snaps == old(snaps)[..idx + 1] && !failed
      ensures st != Ok ==>
        savepoints == old(savepoints) && snaps == old(snaps) && db.files == old(db.files) && failed == old(failed)
    {
      if !active {
        return ErrBadArg;
      }
      var idx := FindSavepoint(name);
      if idx < 0 {
        return ErrNotFound;
      }
      PopSavepoints(idx + 1);
      ghost var fs := db.files;
      var target := savepoints[idx];
      WholeLevelRecovers(fs, start, tables);
      label L:
      st := RestoreLevel(db, target.tables, At(idx), snaps[idx]);
      forall s | s in db.seen - old@L(db.seen) || s == db.files
        ensures RecoveryKeeps(s, start)
      {
        assert SomeRestored(fs, s, snaps[idx], NamesOf(target.tables), At(idx));
        RestoreKeepsWholeLevel(fs, s, start, tables, snaps[idx], NamesOf(target.tables), idx);
        WholeLevelRecovers(s, start, tables);
      }
      AfterRestore(fs, db.files, start, tables, savepoints, snaps, idx);
      savepoints := savepoints[idx := target.(tables := [])];
      failed := false;
      SameTables(db.files, snaps[idx]) by {
        assert LevelOk(db.files, snaps[idx], [], At(idx)) && NamesOf([]) == {};
      }
    }

    /** `kdb_tx_rollback`: the directory is exactly what it was at begin. */
    method Rollback() returns (st: Status)
      requires Valid()
      modifies this, db
      ensures Valid() && !active
      ensures st == if old(active) then Ok else ErrBadArg
      ensures old(active) ==> db.files == old(start) && forall s :: s in db.seen ==> RecoveryKeeps(s, old(start))
      ensures !old(active) ==> db.files == old(db.files)
      ensures old(active) ==> db.files in db.seen
      ensures db.torn == old(db.torn)
    {
      if !active {
        return ErrBadArg;
      }
      PopSavepoints(0);
      ghost var fs := db.files;
      WholeLevelRecovers(fs, start, tables);
      label L:
      st := RestoreLevel(db, tables, Whole, start);
      forall s | s in db.seen - old@L(db.seen)
        ensures RecoveryKeeps(s, start)
      {
        RestoringWholeRecovers(fs, s, start, tables);
      }
      forall p: Path
        ensures SamePath(db.files, start, p)
      {
        assert p.TableFile? ==> SameTable(db.files, start, p.name);
        assert p.TxBackup? ==> BackupAt(Whole, p.name) !in db.files;
        assert p.Marker? || p.SpBackup? ==> SamePath(fs, db.files, p);
      }
      SameFiles(db.files, start);
      active := false;
    }

    /** `kdb_tx_commit`. A crash at any point leaves a directory that recovers to the begin contents or
        to the committed ones; a marker that is needed and cannot be written leaves the transaction open. */
    method Commit(unwritable: bool) returns (st: Status)
      requires Valid()
      modifies this, db
      ensures Valid()
      ensures st == (if !old(active) then ErrBadArg else if old(failed) then ErrValidation
                     else if unwritable && exists n: Name :: TxBackup(n) in old(db.files) then ErrIo else Ok)
      ensures !old(active) || old(failed) ==> db.files == old(db.files)
      ensures st == Ok ==> !active && db.files == TablesOf(old(db.files))
      ensures st == Ok ==> forall s :: s in db.seen ==> RecoveryKeeps(s, start) || Recovered(s) == db.files
      ensures st != Ok ==> active == old(active) && TablesOf(db.files) == TablesOf(old(db.files))
      ensures start == old(start) && db.torn == old(db.torn)
      ensures old(active) ==> db.files in db.seen
    {
      if !active {
        return ErrBadArg;
      }
      if failed {
        return ErrValidation;
      }
      hide TxInv, Recovered, Committing, MarkerNames, MarkerText, RecoveryKeeps, TablesOf;
      PopSavepoints(0);
      ghost var fs := db.files;
      SameTablesBelow(old(db.files), fs);
      var backedUp := BackedUp();
      SameBackups(old(db.files), fs, backedUp);
      if |backedUp| > 0 {
        if unwritable {
          return ErrIo;
        }
        FinishCleanup(backedUp);
      } else {
        NothingBackedUp(fs, start, tables, snaps);
      }
      active := false;
      st := Ok;
    }

    /** The tables whose backups the commit discards. */
    method BackedUp() returns (backedUp: seq<Name>)
      requires active && TxInv(db.files, start, tables, savepoints, snaps)
      ensures forall n :: n in backedUp <==> TxBackup(n) in db.files
      ensures forall n :: n in backedUp ==> ValidName(n)
    {
      backedUp := [];
      var i := 0;
      while i < |tables|
        invariant 0 <= i <= |tables|
        invariant forall n :: n in backedUp <==> Tracked(n, false) in tables[..i]
      {
        if !tables[i].isNew {
          backedUp := backedUp + [tables[i].name];
        }
        assert tables[..i + 1] == tables[..i] + [tables[i]];
        i := i + 1;
      }
      assert tables[..i] == tables;
      forall n | TxBackup(n) in db.files
        ensures n in backedUp
      {
        LevelBackupsAreTracked(db.files, start, tables, Whole, n);
      }
      forall n | n in backedUp
        ensures ValidName(n) && TxBackup(n) in db.files
      {
        assert Undoable(db.files, start, Tracked(n, false), Whole);
      }
    }

    /** The part of commit from the marker on: it is written, the listed backups are deleted, then it goes as well. */
    method FinishCleanup(backedUp: seq<Name>)
      requires TxInv(db.files, start, tables, [], snaps)
      requires forall n :: n in backedUp <==> TxBackup(n) in db.files
      requires forall n :: n in backedUp ==> ValidName(n)
      modifies db
      ensures db.files == TablesOf(old(db.files)) && db.torn == old(db.torn) && db.files in db.seen
      ensures old(db.seen) <= db.seen
      ensures forall s :: s in db.seen - old(db.seen) ==> Recovered(s) == TablesOf(old(db.files))
    {
      hide TxInv, Recovered, MarkerNames, MarkerText, TablesOf;
      ghost var fs := db.files;
      MarkerWritten(fs, backedUp, start, tables, snaps);
      db.Write(Marker, MarkerText(backedUp));
      CommittingRecovers(fs, db.files, backedUp);
      var i := 0;
      while i < |backedUp|
        invariant 0 <= i <= |backedUp|
        invariant Committing(fs, db.files, backedUp)
        invariant forall j :: 0 <= j < i ==> TxBackup(backedUp[j]) !in db.files
        invariant db.torn == old(db.torn) && old(db.seen) <= db.seen
        invariant forall s :: s in db.seen - old(db.seen) ==> Recovered(s) == TablesOf(fs)
      {
        DroppingKeepsCommitting(fs, db.files, backedUp, backedUp[i]);
        db.Unlink(TxBackup(backedUp[i]));
        CommittingRecovers(fs, db.files, backedUp);
        i := i + 1;
      }
      OnlyTablesLeft(fs, db.files, backedUp);
      db.Unlink(Marker);
      RecoveryIsComplete(db.files);
    }
  }

  // ---------------------------------------------------------------- what the client sees

  datatype Call =
    | Write(name: Name, writes: seq<string>, result: Status, disk: Disk)
    | Create(savepoint: string)
    | Release(savepoint: string)
    | RollbackTo(savepoint: string)

  /** A savepoint: the tables as they were, and those written since. */
  datatype Frame = Frame(name: string, snapshot: Files, noted: set<Name>)

  /** A transaction without its files: the tables, and a stack of snapshots of them. */
  datatype View = View(tables: Files, failed: bool, noted: set<Name>, frames: seq<Frame>)

  /** Whether a level can note the table. */
  function NoteStatus(present: bool, noted: set<Name>, n: Name, fault: Fault): Status {
    if n in noted then Ok
    else if |noted| >= TX_MAX_TABLES then ErrFull
    else if present && fault.FailsAt? then ErrIo
    else Ok
  }

  function FramesStatus(present: bool, frames: seq<Frame>, n: Name, disk: Disk, d: nat): Status
    decreases |frames| - d
  {
    if d >= |frames| then Ok
    else
      var st := NoteStatus(present, frames[d].noted, n, disk(At(d)));
      if st != Ok then st else FramesStatus(present, frames, n, disk, d + 1)
  }

  function FramesNoted(present: bool, frames: seq<Frame>, n: Name, disk: Disk, d: nat): seq<Frame>
    requires d <= |frames|
    decreases |frames| - d
  {
    if d >= |frames| || NoteStatus(present, frames[d].noted, n, disk(At(d))) != Ok then frames
    else FramesNoted(present, frames[d := frames[d].(noted := frames[d].noted + {n})], n, disk, d + 1)
  }

  function NotedStatus(v: View, n: Name, disk: Disk): Status {
    var present := TableFile(n) in v.tables;
    var st := NoteStatus(present, v.noted, n, disk(Whole));
    if st != Ok then st else FramesStatus(present, v.frames, n, disk, 0)
  }

  function AfterNoting(v: View, n: Name, disk: Disk): View {
    var present := TableFile(n) in v.tables;
    if NoteStatus(present, v.noted, n, disk(Whole)) != Ok then v
    else v.(noted := v.noted + {n}, frames := FramesNoted(present, v.frames, n, disk, 0))
  }

  function FindFrame(frames: seq<Frame>, name: string, i: nat): (r: int)
    ensures r == -1 || i <= r < |frames|
    decreases |frames| - i
  {
    if i >= |frames| then -1 else if frames[i].name == name then i else FindFrame(frames, name, i + 1)
  }

  function StatusOf(v: View, call: Call): Status {
    match call
    case Write(n, writes, result, disk) =>
      if v.failed then ErrValidation else if NotedStatus(v, n, disk) != Ok then NotedStatus(v, n, disk) else result
    case Create(name) =>
      if name == "" then ErrBadArg else if v.failed then ErrValidation
      else if FindFrame(v.frames, name, 0) >= 0 then ErrExists
      else if |v.frames| >= TX_MAX_SAVEPOINTS then ErrFull else Ok
    case Release(name) => if FindFrame(v.frames, name, 0) < 0 then ErrNotFound else Ok
    case RollbackTo(name) => if FindFrame(v.frames, name, 0) < 0 then ErrNotFound else Ok
  }

  function Step(v: View, call: Call): View {
    var st := StatusOf(v, call);
    match call
    case Write(n, writes, result, disk) =>
      if v.failed then v
      else
        var noted := AfterNoting(v, n, disk).(failed := st != Ok);
        if NotedStatus(v, n, disk) != Ok || writes == [] then noted
        else noted.(tables := v.tables[TableFile(n) := writes[|writes| - 1]])
    case Create(name) =>
      if st != Ok then v else v.(frames := v.frames + [Frame(Cut(name), v.tables, {})])
    case Release(name) =>
      if st != Ok then v else v.(frames := v.frames[..FindFrame(v.frames, name, 0)])
    case RollbackTo(name) =>
      if st != Ok then v
      else
        var d := FindFrame(v.frames, name, 0);
        v.(tables := v.frames[d].snapshot, failed := false, frames := v.frames[..d] + [v.frames[d].(noted := {})])
  }

  function After(v: View, calls: seq<Call>): View
    decreases |calls|
  {
    if calls == [] then v else After(Step(v, calls[0]), calls[1..])
  }

  function Statuses(v: View, calls: seq<Call>): (out: seq<Status>)
    ensures |out| == |calls|
    decreases |calls|
  {
    if calls == [] then [] else [StatusOf(v, calls[0])] + Statuses(Step(v, calls[0]), calls[1..])
  }

  function FreshView(start: Files): View {
    View(TablesOf(start), false, {}, [])
  }

  // What the client sees of a transaction's state.

  function FramesOf(sps: seq<Savepoint>, snaps: seq<Files>): seq<Frame>
    requires |sps| == |snaps|
  {
    seq(|sps|, d requires 0 <= d < |sps| => Frame(sps[d].name, TablesOf(snaps[d]), NamesOf(sps[d].tables)))
  }

  function ViewOf(fs: Files, failed: bool, tables: seq<Tracked>, sps: seq<Savepoint>, snaps: seq<Files>): View
    requires |sps| == |snaps|
  {
    View(TablesOf(fs), failed, NamesOf(tables), FramesOf(sps, snaps))
  }

  predicate NamesDiffer(tracked: seq<Tracked>) {
    forall i, j :: 0 <= i < j < |tracked| ==> tracked[i].name != tracked[j].name
  }

  lemma {:induction false} AsManyNames(tracked: seq<Tracked>)
    requires NamesDiffer(tracked)
    ensures |NamesOf(tracked)| == |tracked|
  {
    if tracked != [] {
      var front, last := tracked[..|tracked| - 1], tracked[|tracked| - 1];
      AsManyNames(front);
      NamesOfAppend(front, last);
      LastIsNew(front, last) by {
        assert tracked == front + [last];
      }
      assert tracked == front + [last];
      hide NamesOf, NamesDiffer;
      assert |NamesOf(front) + {last.name}| == |NamesOf(front)| + 1;
    }
  }

  lemma LastIsNew(front: seq<Tracked>, last: Tracked)
    requires NamesDiffer(front + [last])
    ensures last.name !in NamesOf(front)
  {
    forall t | t in front
      ensures t.name != last.name
    {
      var i :| 0 <= i < |front| && front[i] == t;
      assert (front + [last])[i] == t && (front + [last])[|front|] == last;
    }
  }

  lemma SameNoteStatus(fs: Files, tracked: seq<Tracked>, n: Name, lvl: Level, disk: Disk)
    requires NamesDiffer(tracked)
    ensures TrackStatus(fs, tracked, n, lvl, disk) == NoteStatus(TableFile(n) in fs, NamesOf(tracked), n, disk(lvl))
  {
    AsManyNames(tracked);
  }

  lemma {:induction false} SameLevels(fs: Files, sps: seq<Savepoint>, snaps: seq<Files>, n: Name, disk: Disk, d: nat)
    requires |sps| == |snaps| && d <= |sps| && forall e :: 0 <= e < |sps| ==> NamesDiffer(sps[e].tables)
    ensures LevelsStatus(fs, sps, n, disk, d) == FramesStatus(TableFile(n) in fs, FramesOf(sps, snaps), n, disk, d)
    ensures FramesOf(LevelsNoted(fs, sps, n, disk, d), snaps)
         == FramesNoted(TableFile(n) in fs, FramesOf(sps, snaps), n, disk, d)
    decreases |sps| - d
  {
    hide NamesDiffer, TrackStatus, NoteStatus, TablesOf;
    if d < |sps| {
      SameNoteStatus(fs, sps[d].tables, n, At(d), disk);
      if TrackStatus(fs, sps[d].tables, n, At(d), disk) == Ok {
        var more := Noted(fs, sps[d].tables, n);
        var next := sps[d := sps[d].(tables := more)];
        var frames := FramesOf(sps, snaps);
        assert FramesOf(next, snaps) == frames[d := frames[d].(noted := frames[d].noted + {n})];
        NotedDiffer(fs, sps[d].tables, n);
        SameLevels(fs, next, snaps, n, disk, d + 1);
        StatusAhead(fs, sps, more, n, disk, d, d + 1);
        FramesAhead(TableFile(n) in fs, frames, frames[d].noted + {n}, n, disk, d, d + 1);
      }
    }
  }

  lemma NotedDiffer(fs: Files, tracked: seq<Tracked>, n: Name)
    requires NamesDiffer(tracked)
    ensures NamesDiffer(Noted(fs, tracked, n))
  {
    assert forall t :: t in tracked ==> t.name in NamesOf(tracked);
  }

  lemma {:induction false} FramesAhead(present: bool, frames: seq<Frame>, noted: set<Name>, n: Name, disk: Disk, d: nat,
                                       from: nat)
    requires d < from <= |frames|
    ensures FramesStatus(present, frames[d := frames[d].(noted := noted)], n, disk, from)
         == FramesStatus(present, frames, n, disk, from)
    decreases |frames| - from
  {
    if from < |frames| {
      FramesAhead(present, frames, noted, n, disk, d, from + 1);
    }
  }

  lemma {:induction false} SameFoundFrom(sps: seq<Savepoint>, snaps: seq<Files>, name: string, i: nat)
    requires |sps| == |snaps|
    ensures FindFrame(FramesOf(sps, snaps), name, i) == FindFrom(sps, name, i)
    decreases |sps| - i
  {
    if i < |sps| {
      SameFoundFrom(sps, snaps, name, i + 1);
    }
  }

  lemma SameFound(sps: seq<Savepoint>, snaps: seq<Files>, name: string)
    requires |sps| == |snaps|
    ensures FindFrame(FramesOf(sps, snaps), name, 0) == Find(sps, name) < |sps|
    ensures Find(sps, name) >= 0 ==>
      FramesOf(sps, snaps)[Find(sps, name)] == Frame(name, TablesOf(snaps[Find(sps, name)]),
                                                      NamesOf(sps[Find(sps, name)].tables))
  {
    SameFoundFrom(sps, snaps, name, 0);
  }

  lemma SizeOfFrames(sps: seq<Savepoint>, snaps: seq<Files>)
    requires |sps| == |snaps|
    ensures |FramesOf(sps, snaps)| == |sps|
  {
  }

  lemma FramesPushed(sps: seq<Savepoint>, snaps: seq<Files>, sp: Savepoint, snap: Files)
    requires |sps| == |snaps| && sp.tables == []
    ensures FramesOf(sps + [sp], snaps + [snap]) == FramesOf(sps, snaps) + [Frame(sp.name, TablesOf(snap), {})]
  {
    hide TablesOf;
    assert NamesOf(sp.tables) == {};
    var more, was := FramesOf(sps + [sp], snaps + [snap]), FramesOf(sps, snaps);
    assert forall d :: 0 <= d < |sps| ==> more[d] == was[d];
  }

  lemma FramesCut(sps: seq<Savepoint>, snaps: seq<Files>, d: nat)
    requires |sps| == |snaps| && d < |sps|
    ensures FramesOf(sps[..d], snaps[..d]) == FramesOf(sps, snaps)[..d]
  {
  }

  /** A touch, seen by the client. */
  lemma TouchSeen(fs: Files, failed: bool, start: Files, tables: seq<Tracked>, sps: seq<Savepoint>, snaps: seq<Files>,
                  n: Name, disk: Disk)
    requires TxInv(fs, start, tables, sps, snaps)
    ensures var v := ViewOf(fs, failed, tables, sps, snaps);
      && TouchStatus(fs, tables, sps, n, disk) == NotedStatus(v, n, disk)
      && ViewOf(fs, failed, TablesNoted(fs, tables, n, disk), SavepointsNoted(fs, tables, sps, n, disk), snaps)
         == AfterNoting(v, n, disk)
  {
    assert NamesDiffer(tables);
    forall d | 0 <= d < |sps|
      ensures NamesDiffer(sps[d].tables)
    {
      assert LevelOk(fs, snaps[d], sps[d].tables, At(d));
    }
    SameNoteStatus(fs, tables, n, Whole, disk);
    SameLevels(fs, sps, snaps, n, disk, 0);
  }

  /** A backup is there for each table written that existed at begin. */
  lemma BackupsSeen(fs: Files, start: Files, tables: seq<Tracked>, n: Name)
    requires LevelOk(fs, start, tables, Whole)
    ensures TxBackup(n) in fs <==> n in NamesOf(tables) && TableFile(n) in start
  {
    assert BackupAt(Whole, n) == TxBackup(n);
    if n in NamesOf(tables) {
      var t :| t in tables && t.name == n;
      assert Undoable(fs, start, t, Whole);
    }
  }

  // When a write is taken.

  predicate Takes(present: bool, noted: set<Name>, n: Name, fault: Fault) {
    n in noted || (|noted| < TX_MAX_TABLES && (present ==> fault.Healthy?))
  }

  /** A table can be written exactly when each level has noted it already, or has room for it and can copy it if it
      exists. The write is refused for want of room exactly when the first level that cannot is full. */
  lemma {:induction false} WriteTakenExactly(v: View, n: Name, disk: Disk)
    ensures var present := TableFile(n) in v.tables;
      && (NotedStatus(v, n, disk) == Ok <==>
            && Takes(present, v.noted, n, disk(Whole))
            && forall d :: 0 <= d < |v.frames| ==> Takes(present, v.frames[d].noted, n, disk(At(d))))
      && (NotedStatus(v, n, disk) == ErrFull <==>
            || (n !in v.noted && |v.noted| >= TX_MAX_TABLES)
            || (Takes(present, v.noted, n, disk(Whole))
                && exists d :: FirstFull(present, v.frames, n, disk, 0, d)))
  {
    FramesTakenExactly(TableFile(n) in v.tables, v.frames, n, disk, 0);
  }

  predicate FirstFull(present: bool, frames: seq<Frame>, n: Name, disk: Disk, from: nat, d: nat) {
    from <= d < |frames| && n !in frames[d].noted && |frames[d].noted| >= TX_MAX_TABLES
    && forall e :: from <= e < d ==> Takes(present, frames[e].noted, n, disk(At(e)))
  }

  lemma {:induction false} FramesTakenExactly(present: bool, frames: seq<Frame>, n: Name, disk: Disk, from: nat)
    requires from <= |frames|
    ensures FramesStatus(present, frames, n, disk, from) == Ok <==>
      forall d :: from <= d < |frames| ==> Takes(present, frames[d].noted, n, disk(At(d)))
    ensures FramesStatus(present, frames, n, disk, from) == ErrFull <==>
      exists d :: FirstFull(present, frames, n, disk, from, d)
    decreases |frames| - from
  {
    if from < |frames| {
      FramesTakenExactly(present, frames, n, disk, from + 1);
      var st := NoteStatus(present, frames[from].noted, n, disk(At(from)));
      if st == Ok {
        assert Takes(present, frames[from].noted, n, disk(At(from)));
        var next := from + 1;
        if d :| FirstFull(present, frames, n, disk, from, d) {
          assert FirstFull(present, frames, n, disk, next, d);
        }
        if d :| FirstFull(present, frames, n, disk, next, d) {
          assert FirstFull(present, frames, n, disk, from, d);
        }
      } else {
        assert !Takes(present, frames[from].noted, n, disk(At(from)));
        if st == ErrFull {
          assert FirstFull(present, frames, n, disk, from, from);
        }
      }
    }
  }

  /** All names noted are among these. */
  predicate NotedWithin(v: View, names: set<Name>) {
    v.noted <= names && forall d :: 0 <= d < |v.frames| ==> v.frames[d].noted <= names
  }

  ghost predicate Within(names: set<Name>, calls: seq<Call>) {
    forall c :: c in calls && c.Write? ==> c.name in names
  }

  ghost predicate AllHealthy(calls: seq<Call>) {
    forall c, lvl :: c in calls && c.Write? ==> c.disk(lvl) == Healthy
  }

  /** A client that writes at most as many different tables as a transaction can note, on a healthy disk, has no write
      refused for its table: each ends as the operation itself does, or finds the transaction failed before. */
  lemma {:induction false} FewTablesAlwaysFit(v: View, calls: seq<Call>, names: set<Name>)
    requires NotedWithin(v, names) && |names| <= TX_MAX_TABLES
    requires Within(names, calls) && AllHealthy(calls)
    ensures forall i :: 0 <= i < |calls| && calls[i].Write? ==>
      Statuses(v, calls)[i] == calls[i].result || Statuses(v, calls)[i] == ErrValidation
    decreases |calls|
  {
    if calls != [] {
      var c := calls[0];
      assert c in calls && forall x :: x in calls[1..] ==> x in calls;
      if c.Write? {
        RoomForAll(v, c.name, c.disk, names);
      }
      StaysWithin(v, c, names);
      FewTablesAlwaysFit(Step(v, c), calls[1..], names);
    }
  }

  lemma RoomForAll(v: View, n: Name, disk: Disk, names: set<Name>)
    requires NotedWithin(v, names) && |names| <= TX_MAX_TABLES && n in names && forall lvl :: disk(lvl) == Healthy
    ensures NotedStatus(v, n, disk) == Ok
  {
    WriteTakenExactly(v, n, disk);
    RoomForOne(v.noted, n, names);
    forall d | 0 <= d < |v.frames|
      ensures Takes(TableFile(n) in v.tables, v.frames[d].noted, n, disk(At(d)))
    {
      RoomForOne(v.frames[d].noted, n, names);
    }
  }

  lemma RoomForOne(noted: set<Name>, n: Name, names: set<Name>)
    requires noted <= names && n in names && |names| <= TX_MAX_TABLES
    ensures n in noted || |noted| < TX_MAX_TABLES
  {
    if n !in noted {
      FewerIn(noted + {n}, names);
    }
  }

  lemma FewerIn(a: set<Name>, b: set<Name>)
    requires a <= b
    ensures |a| <= |b|
  {
    assert b == a + (b - a);
  }

  lemma {:induction false} FramesStayWithin(present: bool, frames: seq<Frame>, n: Name, disk: Disk, d: nat,
                                            names: set<Name>)
    requires d <= |frames| && n in names && forall e :: 0 <= e < |frames| ==> frames[e].noted <= names
    ensures forall e :: 0 <= e < |FramesNoted(present, frames, n, disk, d)| ==>
      FramesNoted(present, frames, n, disk, d)[e].noted <= names
    decreases |frames| - d
  {
    if d < |frames| && NoteStatus(present, frames[d].noted, n, disk(At(d))) == Ok {
      var next := frames[d := frames[d].(noted := frames[d].noted + {n})];
      assert forall e :: 0 <= e < |next| ==> next[e].noted <= names;
      FramesStayWithin(present, next, n, disk, d + 1, names);
      assert FramesNoted(present, frames, n, disk, d) == FramesNoted(present, next, n, disk, d + 1);
    }
  }

  lemma StaysWithin(v: View, c: Call, names: set<Name>)
    requires NotedWithin(v, names) && (c.Write? ==> c.name in names)
    ensures NotedWithin(Step(v, c), names)
  {
    if c.Write? {
      FramesStayWithin(TableFile(c.name) in v.tables, v.frames, c.name, c.disk, 0, names);
    }
  }

  // ---------------------------------------------------------------- whole runs

  /** Any client: a transaction, any calls, then commit or rollback (or neither: the process dies).
      Every directory met on the way recovers to the begin contents or to the committed ones, except
      that a crash inside a backup copy recovers the begin contents only if the copy was complete. The calls end,
      and the committed tables are, as for a stack of snapshots of the tables. */
  method Run(db: Database, calls: seq<Call>, commit: bool, finish: bool, unwritable: bool)
    returns (statuses: seq<Status>, committed: bool)
    requires Clean(db.files)
    requires forall c :: c in calls && c.Write? ==> ValidName(c.name)
    modifies db
    ensures forall s :: s in db.seen ==>
      RecoveryKeeps(s, old(db.files)) || (committed && Recovered(s) == db.files)
    ensures forall s :: s in db.torn ==>
      (RecoveryKeeps(s, old(db.files)) <==> BackupsComplete(s, old(db.files)))
    ensures finish && !commit ==> db.files == old(db.files)
    ensures db.files in db.seen
    ensures statuses == Statuses(FreshView(old(db.files)), calls)
    ensures var v := After(FreshView(old(db.files)), calls);
      && (committed <==>
            && finish && commit && !v.failed
            && !(unwritable && exists n :: n in v.noted && TableFile(n) in old(db.files)))
      && (committed ==> db.files == v.tables)
  {
    hide Step, StatusOf, TxInv, RecoveryKeeps, BackupsComplete;
    committed := false;
    statuses := [];
    ghost var begin := FreshView(db.files);
    var tx := new Transaction.Begin(db);
    ghost var view := tx.Seen();
    assert view == begin;
    assert calls[0..] == calls;
    var i := 0;
    while i < |calls|
      invariant 0 <= i <= |calls|
      invariant tx.Valid() && tx.active && tx.db == db && tx.start == old(db.files) && fresh(tx)
      invariant view == tx.Seen()
      invariant After(view, calls[i..]) == After(begin, calls)
      invariant statuses + Statuses(view, calls[i..]) == Statuses(begin, calls)
      modifies db, tx
    {
      assert calls[i..][1..] == calls[i + 1..];
      assert calls[i] in calls;
      var st := tx.Do(calls[i]);
      assert statuses + ([st] + Statuses(Step(view, calls[i]), calls[i + 1..]))
          == (statuses + [st]) + Statuses(Step(view, calls[i]), calls[i + 1..]);
      view := tx.Seen();
      statuses := statuses + [st];
      i := i + 1;
    }
    if finish {
      var st;
      if commit {
        forall n
          ensures TxBackup(n) in db.files <==> n in view.noted && TableFile(n) in tx.start
        {
          tx.BackedUpSeen(n);
        }
        st := tx.Commit(unwritable);
        committed := st == Ok;
      } else {
        st := tx.Rollback();
      }
    }
  }

  /** A crash right after the backup file was created, before a byte was copied, empties the table. */
  lemma TornBackupLosesTable(n: Name, rows: string)
    requires ValidName(n) && rows != ""
    ensures var start := map[TableFile(n) := rows];
      TornCopy(start[TxBackup(n) := ""], start, TxBackup(n), rows)
      && Recovered(start[TxBackup(n) := ""]) == map[TableFile(n) := ""]
      && !RecoveryKeeps(start[TxBackup(n) := ""], start)
  {
    var start := map[TableFile(n) := rows];
    var s := start[TxBackup(n) := ""];
    assert s == start[TxBackup(n) := rows[..0]];
    assert PutsBack(s, n) && RecoveredPaths(s) == {TableFile(n)};
    assert !SameTable(Recovered(s), start, n);
  }

  /** Commit ignores whether a backup could be deleted. One that stays behind makes the next open undo
      the committed table, harmless only if the transaction did not change it. */
  lemma UndeletedBackupUndoesCommit(committed: Files, n: Name, was: string)
    requires Clean(committed) && TableFile(n) in committed
    ensures Recovered(committed[TxBackup(n) := was]) == committed <==> was == committed[TableFile(n)]
  {
    var s := committed[TxBackup(n) := was];
    assert ValidName(TableFile(n).name);
    assert PutsBack(s, n) && forall m :: m != n ==> !PutsBack(s, m);
    assert Recovered(s)[TableFile(n)] == was;
    forall p: Path
      ensures p in RecoveredPaths(s) <==> p in committed
    {
      assert p in committed ==> p.TableFile?;
    }
    if was == committed[TableFile(n)] {
      forall p
        ensures SamePath(Recovered(s), committed, p)
      {
      }
      SameFiles(Recovered(s), committed);
    }
  }

  // A foreign-key cascade writes tables the operation did not name, and no level notes them.

  /** What a level can put back, with nothing said of the tables it does not track. */
  ghost predicate TrackedOk(fs: Files, snap: Files, tracked: seq<Tracked>, lvl: Level) {
    && (forall i, j :: 0 <= i < j < |tracked| ==> tracked[i].name != tracked[j].name)
    && (forall t :: t in tracked ==> Undoable(fs, snap, t, lvl))
    && (forall n :: n !in NamesOf(tracked) ==> BackupAt(lvl, n) !in fs)
  }

  /** The snapshot's tracked tables and the present contents of the others. */
  function WithCascades(fs: Files, snap: Files, tracked: seq<Tracked>): Files {
    (map p | p in fs && p.TableFile? && p.name !in NamesOf(tracked) :: fs[p])
    + (map p | p in snap && p.TableFile? && p.name in NamesOf(tracked) :: snap[p])
  }

  lemma CascadesAreKept(fs: Files, snap: Files, tracked: seq<Tracked>, lvl: Level)
    requires TrackedOk(fs, snap, tracked, lvl)
    ensures LevelOk(fs, WithCascades(fs, snap, tracked), tracked, lvl)
  {
    var kept := WithCascades(fs, snap, tracked);
    forall t | t in tracked
      ensures Undoable(fs, kept, t, lvl)
    {
      assert t.name in NamesOf(tracked) && Undoable(fs, snap, t, lvl);
    }
    assert forall n :: n !in NamesOf(tracked) ==> SameTable(fs, kept, n);
  }

  /** A rollback puts the snapshot back exactly when every table that no level noted is as it was: what a cascade
      wrote to such a table stays. */
  method RestoreAfterCascades(db: Database, tracked: seq<Tracked>, lvl: Level, ghost snap: Files)
    requires TrackedOk(db.files, snap, tracked, lvl) && db.files in db.seen
    modifies db
    ensures forall n :: n !in NamesOf(tracked) ==> SameTable(old(db.files), db.files, n)
    ensures (forall n :: SameTable(db.files, snap, n))
       <==> forall n :: n !in NamesOf(tracked) ==> SameTable(old(db.files), snap, n)
  {
    ghost var was, kept := db.files, WithCascades(db.files, snap, tracked);
    CascadesAreKept(was, snap, tracked, lvl);
    var st := RestoreLevel(db, tracked, lvl, kept);
    forall n
      ensures SameTable(db.files, kept, n)
    {
      assert LevelOk(db.files, kept, [], lvl) && n !in NamesOf([]);
    }
    forall n
      ensures n in NamesOf(tracked) ==> SameTable(db.files, snap, n)
      ensures n !in NamesOf(tracked) ==> SameTable(was, db.files, n)
      ensures n !in NamesOf(tracked) ==> (SameTable(was, snap, n) <==> SameTable(db.files, snap, n))
    {
      assert SameTable(db.files, kept, n);
      assert n in NamesOf(tracked) ==> SameTable(kept, snap, n);
    }
  }

  /** Recovery after a crash does no better: a table without a backup stays as the cascade left it. */
  lemma CascadeEscapesRecovery(parent: Name, child: Name, old1: string, new1: string, old2: string, new2: string)
    requires ValidName(parent) && ValidName(child) && parent != child && old2 != new2
    ensures var start := map[TableFile(parent) := old1, TableFile(child) := old2];
      var fs := map[TableFile(parent) := new1, TableFile(child) := new2, TxBackup(parent) := old1];
      Recovered(fs) == map[TableFile(parent) := old1, TableFile(child) := new2] && !RecoveryKeeps(fs, start)
  {
    var start := map[TableFile(parent) := old1, TableFile(child) := old2];
    var fs := map[TableFile(parent) := new1, TableFile(child) := new2, TxBackup(parent) := old1];
    assert PutsBack(fs, parent) && !PutsBack(fs, child);
    assert RecoveredPaths(fs) == {TableFile(parent), TableFile(child)};
    assert Recovered(fs) == map[TableFile(parent) := old1, TableFile(child) := new2];
    assert !SameTable(Recovered(fs), start, child);
  }
}
