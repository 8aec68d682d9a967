// The part of the file system that datafiles.c relies on: names, inodes and open files. Every call
// may fail; which calls do is left open.

module Files {
  import opened Bytes

  type Contents = seq<byte>

  // An open FILE
  class File {
    const inode: nat
    var pos: nat
    var error: bool   // ferror

    constructor (inode: nat)
      ensures this.inode == inode && pos == 0 && !error
    {
      this.inode := inode;
      pos, error := 0, false;
    }
  }

  class FileSystem {
    var names: map<string, nat>
    var data: map<nat, Contents>   // kept as long as any handle may need it
    var next: nat
    ghost var trace: seq<map<string, Contents>>   // what each name held, after every call so far
    ghost var faults: nat                         // how many calls have failed that need not have

    ghost predicate Valid()
      reads this
    {
      && (forall n :: n in names ==> names[n] in data)
      && (forall i :: i in data ==> i < next)
    }

    // What each name holds now
    ghost function Now(): map<string, Contents>
      requires Valid()
      reads this
    {
      map n | n in names :: data[names[n]]
    }

    method Unlink(name: string)
      requires Valid()
      modifies this`names, this`trace, this`faults
      ensures Valid() && trace == old(trace) + [Now()]
      ensures (names == old(names) - {name} && faults == old(faults)) || (names == old(names) && faults == old(faults) + 1)
    {
      var done: bool := *;
      if done {
        names := names - {name};
      } else {
        faults := faults + 1;
      }
      trace := trace + [Now()];
    }

    // rename: missing reports ENOENT.
    method Rename(from: string, to: string) returns (ok: bool, missing: bool)
      requires Valid()
      modifies this`names, this`trace, this`faults
      ensures Valid() && trace == old(trace) + [Now()]
      ensures missing <==> from !in old(names)
      ensures ok ==> from in old(names) && names == (old(names) - {from})[to := old(names)[from]]
      ensures !ok ==> names == old(names)
      ensures faults == if ok || missing then old(faults) else old(faults) + 1
    {
      missing := from !in names;
      ok := *;
      ok := ok && !missing;
      if ok {
        names := (names - {from})[to := names[from]];
      } else if !missing {
        faults := faults + 1;
      }
      trace := trace + [Now()];
    }

    // fopen(name, "rb")
    method OpenRead(name: string) returns (f: File?)
      requires Valid()
      modifies this`faults
      ensures f != null ==> fresh(f) && name in names && f.inode == names[name] && f.pos == 0 && !f.error
      ensures faults == if f == null && name in names then old(faults) + 1 else old(faults)
    {
      if name !in names {
        return null;
      }
      var fails: bool := *;
      if fails {
        faults := faults + 1;
        return null;
      }
      f := new File(names[name]);
    }

    // open(name, O_WRONLY | O_CREAT | O_EXCL) and fdopen
    method Create(name: string) returns (f: File?)
      requires Valid()
      modifies this
      ensures Valid() && trace == old(trace) + [Now()]
      ensures f == null ==> names == old(names) && data == old(data) && next == old(next)
      ensures f != null ==> fresh(f) && f.inode == old(next) && f.pos == 0 && !f.error && name !in old(names) && next == old(next) + 1
                            && names == old(names)[name := f.inode] && data == old(data)[f.inode := []]
      ensures faults == if f == null && name !in old(names) then old(faults) + 1 else old(faults)
    {
      var fails: bool := *;
      if fails || name in names {
        trace := trace + [Now()];
        if name !in names {
          faults := faults + 1;
        }
        return null;
      }
      f := new File(next);
      data := data[next := []];
      names := names[name := next];
      next := next + 1;
      trace := trace + [Now()];
    }

    // The file with bytes written over it from pos on
    static function Overwrite(was: Contents, pos: nat, bytes: Contents): Contents
      requires pos <= |was|
    {
      was[..pos] + bytes + (if pos + |bytes| <= |was| then was[pos + |bytes|..] else [])
    }

    // fwrite: n bytes are written, all of them or fewer.
    method Fwrite(bytes: Contents, f: File) returns (n: nat)
      requires Valid() && f.inode in data && f.pos <= |data[f.inode]|
      modifies this`data, this`trace, this`faults, f`pos, f`error
      ensures Valid() && trace == old(trace) + [Now()]
      ensures faults == if n < |bytes| then old(faults) + 1 else old(faults)
      ensures n <= |bytes| && f.pos == old(f.pos) + n
      ensures data == old(data)[f.inode := Overwrite(old(data)[f.inode], old(f.pos), bytes[..n])]
      ensures f.pos <= |data[f.inode]|
    {
      var k: int := *;
      n := if 0 <= k < |bytes| then k else |bytes|;
      if n < |bytes| {
        f.error := true;
        faults := faults + 1;
      }
      data := data[f.inode := Overwrite(data[f.inode], f.pos, bytes[..n])];
      f.pos := f.pos + n;
      trace := trace + [Now()];
    }

    // fread: at most n bytes; fewer at the end of the file, or after an error.
    method Fread(n: nat, f: File) returns (bytes: Contents)
      requires Valid() && f.inode in data && f.pos <= |data[f.inode]|
      modifies this`faults, f`pos, f`error
      ensures f.pos == old(f.pos) + |bytes| <= |data[f.inode]| && bytes == data[f.inode][old(f.pos)..f.pos]
      ensures |bytes| <= n && (old(f.error) ==> f.error)
      ensures faults == if |bytes| < n && f.pos < |data[f.inode]| then old(faults) + 1 else old(faults)
      ensures !f.error ==> |bytes| == n || f.pos == |data[f.inode]|
    {
      var have := data[f.inode][f.pos..];
      var k: int := *;
      if 0 <= k < n && k < |have| {
        f.error := true;
        faults := faults + 1;
        bytes := have[..k];
      } else {
        bytes := if n <= |have| then have[..n] else have;
      }
      f.pos := f.pos + |bytes|;
    }

    // fgetc
    method Fgetc(f: File) returns (c: int)
      requires Valid() && f.inode in data && f.pos <= |data[f.inode]|
      modifies this`faults, f`pos, f`error
      ensures faults == if c == EOF && f.pos < |data[f.inode]| then old(faults) + 1 else old(faults)
      ensures f.pos <= |data[f.inode]| && (old(f.error) ==> f.error)
      ensures if c == EOF then f.pos == old(f.pos) && (f.error || f.pos == |data[f.inode]|)
              else f.pos == old(f.pos) + 1 && c == data[f.inode][old(f.pos)]
    {
      var bytes := Fread(1, f);
      c := if bytes == [] then EOF else bytes[0];
    }

    // fputc
    method Fputc(b: byte, f: File) returns (c: int)
      requires Valid() && f.inode in data && f.pos <= |data[f.inode]|
      modifies this`data, this`trace, this`faults, f`pos, f`error
      ensures Valid() && trace == old(trace) + [Now()]
      ensures faults == if c == EOF then old(faults) + 1 else old(faults)
      ensures if c == EOF then data == old(data) && f.pos == old(f.pos)
              else c == b && f.pos == old(f.pos) + 1 &&
                   data == old(data)[f.inode := Overwrite(old(data)[f.inode], old(f.pos), [b])]
      ensures f.pos <= |data[f.inode]|
    {
      var n := Fwrite([b], f);
      if n == 0 {
        assert Overwrite(old(data)[f.inode], old(f.pos), []) == old(data)[f.inode];
        return EOF;
      }
      assert [b][..1] == [b];
      c := b;
    }

    // fseek to the start
    method Rewind(f: File) returns (ok: bool)
      modifies this`faults, f`pos
      ensures f.pos == if ok then 0 else old(f.pos)
      ensures faults == if ok then old(faults) else old(faults) + 1
    {
      ok := *;
      if ok {
        f.pos := 0;
      } else {
        faults := faults + 1;
      }
    }

    // fflush and ftruncate at the current position; a failure goes unnoticed.
    method Ftruncate(f: File)
      requires Valid() && f.inode in data && f.pos <= |data[f.inode]|
      modifies this`data, this`trace, this`faults
      ensures Valid() && trace == old(trace) + [Now()]
      ensures data == (if faults == old(faults) then old(data)[f.inode := old(data)[f.inode][..f.pos]] else old(data))
      ensures faults == old(faults) || faults == old(faults) + 1
    {
      var ok: bool := *;
      if ok {
        data := data[f.inode := data[f.inode][..f.pos]];
      } else {
        faults := faults + 1;
      }
      trace := trace + [Now()];
    }
  }

  // Some name holds these contents.
  ghost predicate Holds(names: map<string, Contents>, c: Contents) {
    exists n :: n in names && names[n] == c
  }

  // At every moment from the start-th call on
  ghost predicate HeldSince(trace: seq<map<string, Contents>>, start: nat, c: Contents) {
    forall k {:trigger Holds(trace[k], c)} :: start <= k < |trace| ==> Holds(trace[k], c)
  }

  lemma HeldJoin(trace1: seq<map<string, Contents>>, trace2: seq<map<string, Contents>>, start: nat, c: Contents)
    requires start <= |trace1| && trace1 <= trace2
    requires HeldSince(trace1, start, c) && HeldSince(trace2, |trace1|, c)
    ensures HeldSince(trace2, start, c)
  {
    forall k | start <= k < |trace2|
      ensures Holds(trace2[k], c)
    {
      assert k < |trace1| ==> trace2[k] == trace1[k];
    }
  }
}
