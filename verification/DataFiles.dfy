// datafiles.c: database files, with a backup that lasts as long as the new file is being written.

module DataFiles {
  import opened Bytes
  import opened Files

  const FILE_VERSION: byte := 8
  const PATH_MAX: nat := 4096

  class DbFile {
    const writing: bool
    const fp: File
    const backupfp: File?
    const filename: string
    const backupname: string   // empty if there is none

    constructor (writing: bool, fp: File, backupfp: File?, filename: string, backupname: string)
      ensures this.writing == writing && this.fp == fp && this.backupfp == backupfp
      ensures this.filename == filename && this.backupname == backupname
    {
      this.writing, this.fp, this.backupfp, this.filename, this.backupname := writing, fp, backupfp, filename, backupname;
    }
  }

  // strscpy into a path buffer
  function Path(name: string): (path: string)
    ensures path <= name && |path| < PATH_MAX && (path == name || |path| == PATH_MAX - 1)
  {
    if |name| < PATH_MAX then name else name[..PATH_MAX - 1]
  }

  function BackupName(filename: string): string {
    Path(filename + ".save")
  }

  const HEADER: Contents := [0, 0, 0, FILE_VERSION]

  // The old file, as long as the new one is being written: it has another name, or is open, or both.
  ghost predicate Kept(fs: FileSystem, f: DbFile, was: Contents)
    reads fs, f.backupfp
  {
    && fs.Valid()
    && (f.backupname != "" ==> f.backupname != f.filename && f.backupname in fs.names
                               && fs.names[f.backupname] != f.fp.inode && fs.data[fs.names[f.backupname]] == was)
    && (f.backupfp != null ==> f.backupfp != f.fp && f.backupfp.inode != f.fp.inode && f.backupfp.inode in fs.data
                               && fs.data[f.backupfp.inode] == was && f.backupfp.pos == 0)
    && (f.backupname != "" || f.backupfp != null)
  }

  // The new file
  ghost predicate Written(fs: FileSystem, f: DbFile, now: Contents)
    reads fs, f.fp
  {
    && fs.Valid() && f.filename in fs.names && fs.names[f.filename] == f.fp.inode
    && fs.data[f.fp.inode] == now && f.fp.pos == |now|
  }

  // What a name leads to
  ghost function Under(fs: FileSystem, name: string): Contents
    requires fs.Valid() && name in fs.names
    reads fs
  {
    fs.data[fs.names[name]]
  }

  // The contents are back under the file's own name.
  ghost predicate Restored(fs: FileSystem, filename: string, was: Contents)
    reads fs
  {
    fs.Valid() && filename in fs.names && fs.data[fs.names[filename]] == was
  }

  type Names = map<string, nat>
  type Inodes = map<nat, Contents>
  type Trace = seq<map<string, Contents>>

  // From the start-th call on, the names of s held what they hold now.
  ghost predicate Steady(names: Names, data: Inodes, trace: Trace, s: set<string>, start: nat) {
    && (forall n :: n in s ==> n in names && names[n] in data)
    && (forall k, n {:trigger trace[k], names[n]} :: start <= k < |trace| && n in s ==>
          n in trace[k] && trace[k][n] == data[names[n]])
  }

  lemma SteadyHeld(names: Names, data: Inodes, trace: Trace, s: set<string>, start: nat, name: string)
    requires Steady(names, data, trace, s, start) && name in s
    ensures HeldSince(trace, start, data[names[name]])
  {
    forall k | start <= k < |trace|
      ensures Holds(trace[k], data[names[name]])
    {
      assert trace[k][name] == data[names[name]];
    }
  }

  lemma SteadyJoin(names1: Names, data1: Inodes, trace1: Trace, names2: Names, data2: Inodes, trace2: Trace,
                   s: set<string>, start: nat)
    requires start <= |trace1| && trace1 <= trace2
    requires Steady(names1, data1, trace1, s, start) && Steady(names2, data2, trace2, s, |trace1|)
    requires forall n :: n in s ==> names2[n] == names1[n] && data2[names2[n]] == data1[names1[n]]
    ensures Steady(names2, data2, trace2, s, start)
  {
    forall k, n | start <= k < |trace2| && n in s
      ensures n in trace2[k] && trace2[k][n] == data2[names2[n]]
    {
      if k < |trace1| {
        assert trace2[k] == trace1[k];
        assert n in trace1[k] && trace1[k][n] == data1[names1[n]];
      }
    }
  }

  lemma SteadyLess(names: Names, data: Inodes, trace: Trace, s: set<string>, t: set<string>, start: nat)
    requires Steady(names, data, trace, s, start) && t <= s
    ensures Steady(names, data, trace, t, start)
  {
  }

  // The names that do not lead to inode
  ghost function NotTo(names: Names, inode: nat): set<string> {
    set n | n in names && names[n] != inode
  }

  // fp is open for writing at its end.
  ghost predicate AtEnd(fs: FileSystem, fp: File)
    reads fs, fp
  {
    fs.Valid() && fp.inode in fs.data && fp.pos == |fs.data[fp.inode]|
  }

  // Since the old state, nothing happened but that fp grew by bytes.
  twostate predicate Grew(fs: FileSystem, fp: File, bytes: Contents)
    reads fs, fp
  {
    && old(AtEnd(fs, fp)) && AtEnd(fs, fp) && fs.names == old(fs.names) && fs.next == old(fs.next)
    && fs.data == old(fs.data)[fp.inode := old(fs.data)[fp.inode] + bytes]
    && old(fs.trace) <= fs.trace && Steady(fs.names, fs.data, fs.trace, NotTo(fs.names, fp.inode), |old(fs.trace)|)
  }

  lemma OverwriteEnd(was: Contents, bytes: Contents)
    ensures FileSystem.Overwrite(was, |was|, bytes) == was + bytes
  {
  }

  lemma GrowNone(data: Inodes, inode: nat)
    requires inode in data
    ensures data[inode := data[inode] + []] == data
  {
    assert data[inode] + [] == data[inode];
  }

  lemma GrowTwice(data: Inodes, inode: nat, a: Contents, b: Contents)
    requires inode in data
    ensures var d := data[inode := data[inode] + a]; d[inode := d[inode] + b] == data[inode := data[inode] + (a + b)]
  {
    Assoc(data[inode], a, b);
  }

  // fputc at the end of a file
  method Put(fs: FileSystem, fp: File, b: byte) returns (c: int)
    requires AtEnd(fs, fp)
    modifies fs`data, fs`trace, fs`faults, fp`pos, fp`error
    ensures Grew(fs, fp, if c == EOF then [] else [b])
    ensures fs.faults == old(fs.faults) + if c == EOF then 1 else 0
  {
    GrowNone(fs.data, fp.inode);
    OverwriteEnd(fs.data[fp.inode], [b]);
    c := fs.Fputc(b, fp);
    assert fs.trace[|old(fs.trace)|] == fs.Now();
  }

  // fwrite at the end of a file
  method PutSome(fs: FileSystem, fp: File, bytes: Contents) returns (n: nat)
    requires AtEnd(fs, fp)
    modifies fs`data, fs`trace, fs`faults, fp`pos, fp`error
    ensures n <= |bytes| && Grew(fs, fp, bytes[..n])
    ensures fs.faults == old(fs.faults) + if n < |bytes| then 1 else 0
  {
    n := fs.Fwrite(bytes, fp);
    OverwriteEnd(old(fs.data)[fp.inode], bytes[..n]);
    assert fs.trace[|old(fs.trace)|] == fs.Now();
  }

  // A row of fputc calls, as in write_int16, write_int32 and write_file_version: it stops at the
  // first that fails.
  method PutAll(fs: FileSystem, fp: File, bytes: Contents) returns (ok: bool, ghost n: nat)
    requires AtEnd(fs, fp)
    modifies fs`data, fs`trace, fs`faults, fp`pos, fp`error
    ensures n <= |bytes| && Grew(fs, fp, bytes[..n]) && ok == (n == |bytes|)
    ensures fs.faults == old(fs.faults) + if ok then 0 else 1
  {
    var i := 0;
    GrowNone(fs.data, fp.inode);
    while i < |bytes|
      invariant 0 <= i <= |bytes| && Grew(fs, fp, bytes[..i]) && fs.faults == old(fs.faults)
    {
      ghost var data := fs.data;
      var c := Put(fs, fp, bytes[i]);
      GrowNone(data, fp.inode);
      GrowTwice(old(fs.data), fp.inode, bytes[..i], [bytes[i]]);
      if c == EOF {
        return false, i;
      }
      assert bytes[..i + 1] == bytes[..i] + [bytes[i]];
      i := i + 1;
    }
    return true, i;
  }

  // ---------- opening for write ----------

  // The backup: an old .save goes, the file is opened and takes that name.
  method MoveAside(fs: FileSystem, filename: string, save: string, noBackupOkay: bool)
    returns (go: bool, backupname: string, backupfp: File?)
    requires fs.Valid() && save != filename && save != ""
    modifies fs`names, fs`trace, fs`faults
    ensures fs.Valid() && old(fs.trace) <= fs.trace && old(fs.faults) <= fs.faults
    ensures fs.faults == old(fs.faults) ==> go && backupname == save && (filename in old(fs.names) ==> backupfp != null)
    ensures Steady(fs.names, fs.data, fs.trace, old(fs.names.Keys) - {filename, save}, |old(fs.trace)|)
    ensures forall n :: n in old(fs.names) && n != filename && n != save ==> fs.names[n] == old(fs.names)[n]
    ensures backupfp != null ==> fresh(backupfp) && filename in old(fs.names) && backupfp.pos == 0
                                 && backupfp.inode == old(fs.names)[filename]
    ensures backupname == save || (backupname == "" && filename in old(fs.names))
    ensures filename !in old(fs.names) ==> go && filename !in fs.names
    ensures filename in old(fs.names) && fs.faults <= old(fs.faults) + 1 ==> backupname == save || backupfp != null
    ensures filename in old(fs.names) && go && backupname == save ==>
              save in fs.names && fs.names[save] == old(fs.names)[filename] && filename !in fs.names
    ensures filename in old(fs.names) && (!go || backupname == "") ==>
              filename in fs.names && fs.names[filename] == old(fs.names)[filename] && (go ==> noBackupOkay)
    ensures filename in old(fs.names) ==> HeldSince(fs.trace, |old(fs.trace)|, fs.data[old(fs.names)[filename]])
  {
    var ok, missing;
    ok, missing, backupfp := Displace(fs, filename, save);
    if !ok && !missing {
      if !noBackupOkay {
        return false, save, backupfp;
      }
      return true, "", backupfp;
    }
    return true, save, backupfp;
  }

  // Its calls: a backup that is in the way goes, the file is opened and takes the name of the backup.
  method Displace(fs: FileSystem, filename: string, save: string) returns (ok: bool, missing: bool, backupfp: File?)
    requires fs.Valid() && save != filename
    modifies fs`names, fs`trace, fs`faults
    ensures fs.Valid() && old(fs.trace) <= fs.trace && old(fs.faults) <= fs.faults
    ensures missing <==> filename !in old(fs.names)
    ensures missing ==> !ok && filename !in fs.names
    ensures !missing && fs.faults == old(fs.faults) ==> ok && backupfp != null
    ensures !missing && fs.faults <= old(fs.faults) + 1 ==> ok || backupfp != null
    ensures Steady(fs.names, fs.data, fs.trace, old(fs.names.Keys) - {filename, save}, |old(fs.trace)|)
    ensures forall n :: n in old(fs.names) && n != filename && n != save ==> fs.names[n] == old(fs.names)[n]
    ensures backupfp != null ==> fresh(backupfp) && !missing && backupfp.pos == 0 && backupfp.inode == old(fs.names)[filename]
    ensures ok ==> save in fs.names && fs.names[save] == old(fs.names)[filename] && filename !in fs.names
    ensures !missing && !ok ==> filename in fs.names && fs.names[filename] == old(fs.names)[filename]
    ensures !missing ==> HeldSince(fs.trace, |old(fs.trace)|, fs.data[old(fs.names)[filename]])
  {
    fs.Unlink(save);
    assert fs.trace[|old(fs.trace)|] == fs.Now();
    ghost var first := fs.Now();
    assert filename in fs.names ==> first[filename] == fs.data[fs.names[filename]];
    backupfp := fs.OpenRead(filename);
    ok, missing := fs.Rename(filename, save);
    assert fs.trace[|old(fs.trace)| + 1] == fs.Now();
    assert ok ==> fs.Now()[save] == fs.data[fs.names[save]];
    assert !ok && filename in fs.names ==> fs.Now()[filename] == fs.data[fs.names[filename]];
  }

  // Whatever has the name goes, and the file is created.
  method CreateAnew(fs: FileSystem, filename: string) returns (fp: File?)
    requires fs.Valid()
    modifies fs
    ensures fs.Valid() && old(fs.trace) <= fs.trace && old(fs.next) <= fs.next && old(fs.faults) <= fs.faults
    ensures fs.faults == old(fs.faults) ==> fp != null
    ensures Steady(fs.names, fs.data, fs.trace, old(fs.names.Keys) - {filename}, |old(fs.trace)|)
    ensures forall n :: n in old(fs.names) && n != filename ==> n in fs.names && fs.names[n] == old(fs.names)[n]
    ensures forall i :: i in old(fs.data) ==> i in fs.data && fs.data[i] == old(fs.data)[i]
    ensures fp != null ==> fresh(fp) && fp.inode == old(fs.next) && AtEnd(fs, fp) && fs.data[fp.inode] == []
                           && filename in fs.names && fs.names[filename] == fp.inode
  {
    fs.Unlink(filename);
    assert fs.trace[|old(fs.trace)|] == fs.Now();
    fp := fs.Create(filename);
    assert fs.trace[|old(fs.trace)| + 1] == fs.Now();
  }

  // The new file, with the version number in it
  method StartNew(fs: FileSystem, filename: string) returns (fp: File?)
    requires fs.Valid()
    modifies fs
    ensures fs.Valid() && old(fs.trace) <= fs.trace && old(fs.next) <= fs.next && old(fs.faults) <= fs.faults
    ensures fs.faults == old(fs.faults) ==> fp != null
    ensures Steady(fs.names, fs.data, fs.trace, old(fs.names.Keys) - {filename}, |old(fs.trace)|)
    ensures forall n :: n in old(fs.names) && n != filename ==> n in fs.names && fs.names[n] == old(fs.names)[n]
    ensures forall i :: i in old(fs.data) ==> i in fs.data && fs.data[i] == old(fs.data)[i]
    ensures fp != null ==> fresh(fp) && fp.inode == old(fs.next) && AtEnd(fs, fp) && fs.data[fp.inode] == HEADER
                           && filename in fs.names && fs.names[filename] == fp.inode
  {
    ghost var others := fs.names.Keys - {filename};
    fp := CreateAnew(fs, filename);
    if fp == null {
      return;
    }
    ghost var names, data, trace := fs.names, fs.data, fs.trace;
    var ok, n := PutAll(fs, fp, HEADER);
    SteadyLess(fs.names, fs.data, fs.trace, NotTo(fs.names, fp.inode), others, |trace|);
    SteadyJoin(names, data, trace, fs.names, fs.data, fs.trace, others, |old(fs.trace)|);
    assert HEADER[..4] == HEADER && [] + HEADER == HEADER;
    if !ok {
      fs.Unlink(filename);
      assert fs.trace[|fs.trace| - 1] == fs.Now();
      fp := null;
    }
  }

  // open_db_write
  method OpenDbWrite(fs: FileSystem, name: string, noBackupOkay: bool) returns (f: DbFile?)
    requires fs.Valid()
    modifies fs
    ensures fs.Valid() && old(fs.trace) <= fs.trace && old(fs.faults) <= fs.faults
    // it succeeds if nothing fails and the name leaves room for a suffix;
    ensures fs.faults == old(fs.faults) && |name| < PATH_MAX - 1 ==> f != null
    ensures fs.faults == old(fs.faults) && f != null ==>
              f.backupname != "" && (f.filename in old(fs.names) ==> f.backupfp != null)
    // then the new file holds the version number, and the old one is kept;
    ensures f != null ==> fresh(f) && fresh(f.fp) && f.writing && f.filename == Path(name) && Written(fs, f, HEADER)
    ensures f != null && Path(name) in old(fs.names) && (f.backupname != "" || f.backupfp != null) ==>
              Kept(fs, f, old(Under(fs, Path(name))))
    ensures f != null && f.backupfp != null ==> fresh(f.backupfp) && f.filename in old(fs.names)
    ensures f != null && f.backupname == "" ==> noBackupOkay && f.filename in old(fs.names)
    ensures f != null && f.backupname != "" ==> f.backupname != f.filename
    // one failing call leaves a way back, or the old file where it was,
    ensures f == null && Path(name) in old(fs.names) && fs.faults <= old(fs.faults) + 1 ==>
              Restored(fs, Path(name), old(Under(fs, Path(name))))
    ensures f != null && fs.faults <= old(fs.faults) + 1 ==> f.backupname != "" || f.backupfp != null
    // and as long as a backup is being kept, some name holds the old contents at every moment.
    ensures Path(name) in old(fs.names) && (if f != null then f.backupname != "" else !noBackupOkay) ==>
              HeldSince(fs.trace, |old(fs.trace)|, old(Under(fs, Path(name))))
  {
    var filename := Path(name);
    var save := BackupName(filename);
    if save == "" || save == filename {
      return null;
    }
    var go, backupname, backupfp := MoveAside(fs, filename, save, noBackupOkay);
    if !go {
      return null;
    }
    ghost var names, data, trace := fs.names, fs.data, fs.trace;
    var fp := StartNew(fs, filename);
    if backupname == save && filename in old(fs.names) {
      SteadyHeld(fs.names, fs.data, fs.trace, names.Keys - {filename}, |trace|, save);
    }
    if fp == null {
      if backupname != "" {
        var ok, missing := fs.Rename(backupname, filename);
        assert fs.trace[|fs.trace| - 1] == fs.Now();
        assert filename in old(fs.names) ==> fs.Now()[if ok then filename else save] == old(Under(fs, filename));
      }
      return null;
    }
    f := new DbFile(true, fp, backupfp, filename, backupname);
  }

  // ---------- commit and rollback ----------

  // close_db: the backup goes, if there is one.
  method CloseDb(fs: FileSystem, f: DbFile)
    requires fs.Valid() && (f.backupname != "" ==> f.backupname != f.filename)
    modifies fs`names, fs`trace, fs`faults
    ensures fs.Valid() && old(fs.trace) <= fs.trace && old(fs.faults) <= fs.faults
    ensures forall n :: n in old(fs.names) && n != f.backupname ==> n in fs.names && fs.names[n] == old(fs.names)[n]
    ensures fs.names.Keys <= old(fs.names.Keys)
    ensures f.writing && f.backupname != "" && fs.faults == old(fs.faults) ==> f.backupname !in fs.names
    ensures fs.trace == old(fs.trace) || fs.trace == old(fs.trace) + [fs.Now()]
    // and that is the one call that may fail.
    ensures f.writing && f.backupname != "" && f.backupname in old(fs.names) ==>
              fs.faults == old(fs.faults) + (if f.backupname in fs.names then 1 else 0)
    ensures fs.faults <= old(fs.faults) + (if f.writing && f.backupname != "" then 1 else 0)
    ensures !f.writing || f.backupname == "" ==> fs.names == old(fs.names)
  {
    if f.writing && f.backupname != "" && f.backupname != f.filename {
      fs.Unlink(f.backupname);
    }
  }

  // The copying in restore_db: the old contents are written over the new file from its start.
  method CopyBack(fs: FileSystem, fp: File, backupfp: File, ghost was: Contents) returns (ok: bool)
    requires fs.Valid() && fp != backupfp && fp.inode != backupfp.inode && fp.inode in fs.data && backupfp.inode in fs.data
    requires fs.data[backupfp.inode] == was && backupfp.pos == 0 && fp.pos <= |fs.data[fp.inode]|
    modifies fs`data, fs`trace, fs`faults, fp`pos, fp`error, backupfp`pos, backupfp`error
    ensures fs.Valid() && old(fs.trace) <= fs.trace && old(fs.faults) <= fs.faults && fs.names == old(fs.names)
    ensures fp.inode in fs.data && fs.data == old(fs.data)[fp.inode := fs.data[fp.inode]]
    ensures Steady(fs.names, fs.data, fs.trace, NotTo(fs.names, fp.inode), |old(fs.trace)|)
    ensures fs.faults == old(fs.faults) ==> ok && fs.data[fp.inode] == was
  {
    ok := fs.Rewind(fp);
    var more := true;
    while ok && more
      invariant fs.Valid() && old(fs.trace) <= fs.trace && old(fs.faults) <= fs.faults && fs.names == old(fs.names)
      invariant fp.inode in fs.data && fs.data == old(fs.data)[fp.inode := fs.data[fp.inode]]
      invariant Steady(fs.names, fs.data, fs.trace, NotTo(fs.names, fp.inode), |old(fs.trace)|)
      invariant fp.pos <= |fs.data[fp.inode]| && backupfp.pos <= |was|
      invariant ok ==> fp.pos == backupfp.pos && fs.data[fp.inode][..fp.pos] == was[..backupfp.pos]
      invariant fs.faults == old(fs.faults) ==> ok && (more || backupfp.pos == |was|)
      decreases |was| - backupfp.pos, more
    {
      ghost var now, at := fs.data[fp.inode], fp.pos;
      var buf := fs.Fread(1024, backupfp);
      more := buf != [];
      if more {
        var n := fs.Fwrite(buf, fp);
        assert fs.trace[|fs.trace| - 1] == fs.Now();
        if n != |buf| {
          ok := false;
        } else {
          Overwritten(now, was, at, buf);
          assert buf[..n] == buf;
        }
      }
    }
    if ok {
      fs.Ftruncate(fp);
      assert fs.trace[|fs.trace| - 1] == fs.Now();
    }
  }

  lemma Overwritten(now: Contents, was: Contents, at: nat, buf: Contents)
    requires at <= |now| && at + |buf| <= |was| && now[..at] == was[..at] && buf == was[at..at + |buf|]
    ensures var after := FileSystem.Overwrite(now, at, buf);
            at + |buf| <= |after| && after[..at + |buf|] == was[..at + |buf|]
  {
    assert was[..at + |buf|] == was[..at] + buf;
  }

  // With a backup name there are two ways back, so one call may fail.
  function Spare(f: DbFile): nat {
    if f.backupname != "" then 1 else 0
  }

  ghost function BackupFile(f: DbFile): set<File> {
    if f.backupfp == null then {} else {f.backupfp}
  }

  // restore_db up to the closing of the files. renamed says that the backup took its old name back;
  // otherwise one call may have failed, the rename.
  method PutBack(fs: FileSystem, f: DbFile, ghost was: Contents) returns (renamed: bool)
    requires fs.Valid() && f.filename in fs.names && fs.names[f.filename] == f.fp.inode
    requires f.fp.inode in fs.data && f.fp.pos <= |fs.data[f.fp.inode]|
    requires (f.backupname != "" ==> f.backupname != f.filename) && (f.backupfp != null ==> Kept(fs, f, was))
    modifies fs`names, fs`data, fs`trace, fs`faults, f.fp`pos, f.fp`error
    modifies BackupFile(f)`pos, BackupFile(f)`error
    ensures fs.Valid() && old(fs.trace) <= fs.trace && old(fs.faults) <= fs.faults
    ensures forall n :: n in old(fs.names) && n != f.filename && n != f.backupname ==>
              n in fs.names && fs.names[n] == old(fs.names)[n]
    ensures forall i :: i in old(fs.data) && i != f.fp.inode ==> i in fs.data && fs.data[i] == old(fs.data)[i]
    ensures renamed ==> f.backupname != "" && f.backupname in old(fs.names) && f.backupname !in fs.names
    ensures old(Kept(fs, f, was)) && renamed ==> Restored(fs, f.filename, was)
    ensures old(Kept(fs, f, was)) && f.backupname != "" && fs.faults == old(fs.faults) ==> renamed
    ensures old(Kept(fs, f, was)) && f.backupfp != null && fs.faults <= old(fs.faults) + Spare(f) ==>
              Restored(fs, f.filename, was)
    ensures old(Kept(fs, f, was)) && f.backupname != "" ==> HeldSince(fs.trace, |old(fs.trace)|, was)
    ensures old(Kept(fs, f, was)) && f.backupname != "" && !renamed ==>
              f.backupname in fs.names && fs.data[fs.names[f.backupname]] == was
    ensures f.backupfp == null && f.backupname !in old(fs.names) ==> fs.names == old(fs.names) && fs.data == old(fs.data)
  {
    renamed := false;
    if f.backupname != "" {
      var ok, missing := fs.Rename(f.backupname, f.filename);
      assert fs.trace[|old(fs.trace)|] == fs.Now();
      assert ok ==> fs.Now()[f.filename] == fs.data[fs.names[f.filename]];
      assert !ok && !missing ==> fs.Now()[f.backupname] == fs.data[fs.names[f.backupname]];
      renamed := ok;
    }
    if !renamed && f.backupfp != null {
      ghost var trace := fs.trace;
      var ok := CopyBack(fs, f.fp, f.backupfp, was);
      if f.backupname != "" {
        SteadyHeld(fs.names, fs.data, fs.trace, NotTo(fs.names, f.fp.inode), |trace|, f.backupname);
      }
    }
  }

  // restore_db: the old contents get their name back, and the backup name goes. atUnlink says how many
  // calls have failed before that last one.
  method RestoreDb(fs: FileSystem, f: DbFile, ghost was: Contents) returns (ghost atUnlink: nat)
    requires fs.Valid() && f.filename in fs.names && fs.names[f.filename] == f.fp.inode
    requires f.fp.inode in fs.data && f.fp.pos <= |fs.data[f.fp.inode]|
    requires (f.backupname != "" ==> f.backupname != f.filename) && (f.backupfp != null ==> Kept(fs, f, was))
    modifies fs`names, fs`data, fs`trace, fs`faults, f.fp`pos, f.fp`error, BackupFile(f)`pos, BackupFile(f)`error
    ensures fs.Valid() && old(fs.trace) <= fs.trace && old(fs.faults) <= atUnlink <= fs.faults <= atUnlink + 1
    ensures forall n :: n in old(fs.names) && n != f.filename && n != f.backupname ==>
              n in fs.names && fs.names[n] == old(fs.names)[n]
    // The old contents are back, unless more calls fail than can be spared;
    ensures f.writing && old(Kept(fs, f, was)) && f.backupfp != null && atUnlink <= old(fs.faults) + Spare(f) ==>
              Restored(fs, f.filename, was)
    // without an open backup the rename alone decides;
    ensures f.writing && old(Kept(fs, f, was)) && atUnlink == old(fs.faults) ==> Restored(fs, f.filename, was)
    // and whenever they end up back, some name held them at every moment, given a backup name.
    ensures f.writing && old(Kept(fs, f, was)) && f.backupname != "" && Restored(fs, f.filename, was) ==>
              HeldSince(fs.trace, |old(fs.trace)|, was)
    // Only the very last call can lose them, and not by failing.
    ensures f.writing && old(Kept(fs, f, was)) && f.backupname != "" ==>
              |fs.trace| > |old(fs.trace)| && HeldSince(fs.trace[..|fs.trace| - 1], |old(fs.trace)|, was)
    ensures f.writing && old(Kept(fs, f, was)) && f.backupname != "" && fs.faults > atUnlink ==>
              Restored(fs, f.filename, was) || Restored(fs, f.backupname, was)
    // Where there was no old file there is no way back: what was written stays under the name.
    ensures f.backupfp == null && f.backupname !in old(fs.names) ==>
              Restored(fs, f.filename, old(fs.data[f.fp.inode])) && f.fp.inode == fs.names[f.filename]
    ensures !f.writing ==> fs.names == old(fs.names) && fs.data == old(fs.data) && fs.trace == old(fs.trace)
  {
    atUnlink := fs.faults;
    if f.writing {
      var renamed := PutBack(fs, f, was);
      atUnlink := fs.faults;
      if f.backupname != "" {
        ghost var trace := fs.trace;
        fs.Unlink(f.backupname);
        assert fs.trace == trace + [fs.Now()];
        assert f.filename in fs.names ==> fs.Now()[f.filename] == fs.data[fs.names[f.filename]];
      }
    }
  }
}
