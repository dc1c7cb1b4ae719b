/**
 * The part of the local file system the client touches: a set of directory
 * paths and a map from file paths to their text lines, with the System.IO
 * calls the client makes (Directory.Exists/CreateDirectory/Delete,
 * File.Exists/WriteAllLines/ReadAllLines/Delete, ZipFile.ExtractToDirectory).
 */
module FileSystem {
  import opened Wrappers

  /** Path.Combine on Linux for a relative second part. */
  function Combine(dir: string, name: string): string
  {
    dir + "/" + name
  }

  /** Path p is the directory d itself or lies somewhere below it. */
  predicate Under(p: string, d: string)
  {
    p == d || d + "/" <= p
  }

  /** A file: the directory that holds it and its name there. */
  datatype FilePath = FilePath(dir: string, name: string)

  /** One entry of a ZIP archive: its name and its content as text lines. */
  datatype Entry = Entry(name: string, lines: seq<string>)

  function Names(es: seq<Entry>): set<string>
  {
    set i | 0 <= i < |es| :: es[i].name
  }

  datatype Disk = Disk(dirs: set<string>, files: map<FilePath, seq<string>>) {
    /** Every file sits in an existing directory. */
    ghost predicate Valid()
    {
      forall fp | fp in files :: fp.dir in dirs
    }

    /** Directory.EnumerateFiles(d): the files directly inside d. */
    function FilesIn(d: string): set<FilePath>
    {
      set fp | fp in files && fp.dir == d
    }

    /** Directory.CreateDirectory: a no-op on an existing directory. */
    function CreateDirectory(d: string): Disk
    {
      Disk(dirs + {d}, files)
    }

    /** Directory.Delete(d, true): d and everything below it. */
    function DeleteTree(d: string): Disk
    {
      Disk(set p | p in dirs && !Under(p, d), map fp | fp in files && !Under(fp.dir, d) :: files[fp])
    }

    /** File.WriteAllLines / WriteAllBytes: create or overwrite. */
    function Write(fp: FilePath, lines: seq<string>): Disk
    {
      Disk(dirs, files[fp := lines])
    }

    /** File.Delete: a no-op on a missing file. */
    function DeleteFile(fp: FilePath): Disk
    {
      Disk(dirs, files - {fp})
    }
  }

  /**
   * ZipFile.ExtractToDirectory(zip, dest) once dest exists: entries are
   * written in archive order; an entry whose destination file already exists
   * raises IOException, leaving the entries before it in place. The second
   * component is the clashing path, if any.
   */
  function Extract(d: Disk, dest: string, es: seq<Entry>): (Disk, Option<FilePath>)
    decreases |es|
  {
    if es == [] then (d, None)
    else
      var fp := FilePath(dest, es[0].name);
      if fp in d.files then (d, Some(fp))
      else Extract(d.Write(fp, es[0].lines), dest, es[1..])
  }

  /** Entry names are pairwise distinct and none clashes with a file already in dest. */
  predicate Extractable(d: Disk, dest: string, es: seq<Entry>)
  {
    (forall i, j | 0 <= i < j < |es| :: es[i].name != es[j].name)
    && forall i | 0 <= i < |es| :: FilePath(dest, es[i].name) !in d.files
  }

  /** Extraction keeps directories and existing files, and adds only entry files of dest. */
  lemma {:induction false} ExtractFrame(d: Disk, dest: string, es: seq<Entry>)
    ensures Extract(d, dest, es).0.dirs == d.dirs
    ensures forall fp | fp in d.files :: fp in Extract(d, dest, es).0.files && Extract(d, dest, es).0.files[fp] == d.files[fp]
    ensures forall fp | fp in Extract(d, dest, es).0.files && fp !in d.files :: fp.dir == dest && fp.name in Names(es)
    ensures Extract(d, dest, es).1.Some? ==> Extract(d, dest, es).1.value.dir == dest
    decreases |es|
  {
    if es != [] {
      var fp := FilePath(dest, es[0].name);
      if fp !in d.files {
        ExtractFrame(d.Write(fp, es[0].lines), dest, es[1..]);
        assert forall n | n in Names(es[1..]) :: n in Names(es) by {
          forall n | n in Names(es[1..]) ensures n in Names(es) {
            var k :| 0 <= k < |es[1..]| && es[1..][k].name == n;
            assert es[k + 1].name == n;
          }
        }
        assert es[0].name in Names(es);
      }
    }
  }

  /** Extraction succeeds exactly for extractable archives, and then every entry lands in dest. */
  lemma {:induction false} ExtractSucceeds(d: Disk, dest: string, es: seq<Entry>)
    ensures Extract(d, dest, es).1 == None <==> Extractable(d, dest, es)
    ensures Extractable(d, dest, es) ==>
              forall i | 0 <= i < |es| :: FilePath(dest, es[i].name) in Extract(d, dest, es).0.files
                                         && Extract(d, dest, es).0.files[FilePath(dest, es[i].name)] == es[i].lines
    decreases |es|
  {
    if es != [] {
      var fp := FilePath(dest, es[0].name);
      if fp !in d.files {
        var d1 := d.Write(fp, es[0].lines);
        ExtractSucceeds(d1, dest, es[1..]);
        ExtractFrame(d1, dest, es[1..]);
        assert Extractable(d1, dest, es[1..]) <==> Extractable(d, dest, es) by {
          if Extractable(d, dest, es) {
            forall i | 0 <= i < |es[1..]| ensures FilePath(dest, es[1..][i].name) !in d1.files {
              assert es[1..][i] == es[i + 1];
            }
          }
          if Extractable(d1, dest, es[1..]) {
            forall i, j | 0 <= i < j < |es| ensures es[i].name != es[j].name {
              if i == 0 {
                assert es[j] == es[1..][j - 1];
                assert FilePath(dest, es[1..][j - 1].name) !in d1.files;
              } else {
                assert es[i] == es[1..][i - 1] && es[j] == es[1..][j - 1];
              }
            }
            forall i | 0 <= i < |es| ensures FilePath(dest, es[i].name) !in d.files {
              if i > 0 { assert es[i] == es[1..][i - 1]; }
            }
          }
        }
        if Extractable(d, dest, es) {
          forall i | 0 <= i < |es|
            ensures FilePath(dest, es[i].name) in Extract(d, dest, es).0.files
            ensures Extract(d, dest, es).0.files[FilePath(dest, es[i].name)] == es[i].lines
          {
            if i > 0 { assert es[i] == es[1..][i - 1]; }
          }
        }
      } else {
        assert !Extractable(d, dest, es);
      }
    }
  }

  /** d and e hold the same files, with the same lines, directly in dir. */
  ghost predicate SameIn(d: Disk, e: Disk, dir: string)
  {
    forall fp: FilePath | fp.dir == dir :: (fp in d.files <==> fp in e.files) && (fp in d.files ==> d.files[fp] == e.files[fp])
  }

  /** Extraction looks only at dest: disks that agree there give the same clash and the same files in dest. */
  lemma {:induction false} ExtractLocal(d: Disk, e: Disk, dest: string, es: seq<Entry>)
    requires SameIn(d, e, dest)
    ensures Extract(d, dest, es).1 == Extract(e, dest, es).1
    ensures SameIn(Extract(d, dest, es).0, Extract(e, dest, es).0, dest)
    decreases |es|
  {
    if es != [] {
      var fp := FilePath(dest, es[0].name);
      if fp !in d.files {
        ExtractLocal(d.Write(fp, es[0].lines), e.Write(fp, es[0].lines), dest, es[1..]);
      }
    }
  }

  /** The mutable file system the client works on. */
  class FileSystem {
    var disk: Disk

    ghost predicate Valid()
      reads this
    {
      disk.Valid()
    }

    constructor (initial: Disk)
      requires initial.Valid()
      ensures Valid() && disk == initial
    {
      disk := initial;
    }

    method CreateDirectory(d: string)
      requires Valid()
      modifies this
      ensures Valid() && disk == old(disk).CreateDirectory(d)
    {
      disk := disk.CreateDirectory(d);
    }

    /** Directory.Delete(d, true); the client only calls it on an existing directory. */
    method DeleteDirectory(d: string)
      requires Valid() && d in disk.dirs
      modifies this
      ensures Valid() && disk == old(disk).DeleteTree(d)
    {
      disk := disk.DeleteTree(d);
    }

    /** File.WriteAllLines / WriteAllBytes; false models DirectoryNotFoundException. */
    method WriteAllLines(fp: FilePath, lines: seq<string>) returns (ok: bool)
      requires Valid()
      modifies this
      ensures Valid() && ok == (fp.dir in old(disk).dirs)
      ensures disk == if ok then old(disk).Write(fp, lines) else old(disk)
    {
      ok := fp.dir in disk.dirs;
      if ok {
        disk := disk.Write(fp, lines);
      }
    }

    method ReadAllLines(fp: FilePath) returns (lines: seq<string>)
      requires fp in disk.files
      ensures lines == disk.files[fp]
    {
      lines := disk.files[fp];
    }

    /** File.Delete; the client only calls it inside an existing directory. */
    method DeleteFile(fp: FilePath)
      requires Valid() && fp.dir in disk.dirs
      modifies this
      ensures Valid() && disk == old(disk).DeleteFile(fp)
    {
      disk := disk.DeleteFile(fp);
    }

    /** ZipFile.ExtractToDirectory: creates dest, then extracts; Some(fp) models the IOException on fp. */
    method ExtractToDirectory(es: seq<Entry>, dest: string) returns (clash: Option<FilePath>)
      requires Valid()
      modifies this
      ensures Valid() && (disk, clash) == Extract(old(disk).CreateDirectory(dest), dest, es)
    {
      ExtractFrame(disk.CreateDirectory(dest), dest, es);
      var r := Extract(disk.CreateDirectory(dest), dest, es);
      disk, clash := r.0, r.1;
    }
  }
}
