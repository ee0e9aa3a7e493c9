/** A disk as the cache code sees it: files with contents, and directories.

    Every call may fail for reasons of its own, unless the disk is `reliable`. The trace keeps each state
    the disk has passed through; a crash leaves the disk in one of them. */
module Disks {
  import opened Bytes
  import opened Manifests

  datatype Disk = Disk(files: map<Path, seq<byte>>, dirs: set<Path>)

  datatype Io = Done | NotFound | AlreadyExists | Failed

  /** `p` and its ancestors, the empty path aside. */
  ghost function Prefixes(p: Path): set<Path> {
    set i | 0 < i <= |p| :: p[..i]
  }

  predicate ChildOf(q: Path, p: Path) {
    |q| == |p| + 1 && q[..|p|] == p
  }

  predicate IsEmptyDir(d: Disk, p: Path) {
    && (forall q | q in d.files :: !ChildOf(q, p))
    && (forall q | q in d.dirs :: !ChildOf(q, p))
  }

  lemma ChildOfIff(q: Path, p: Path)
    ensures ChildOf(q, p) <==> exists name :: q == p + [name]
  {
    if ChildOf(q, p) {
      assert q == p + [q[|p|]];
    }
  }

  lemma JoinIsInjective(root: Path, a: Path, b: Path)
    ensures root + a == root + b <==> a == b
  {
    assert (root + a)[|root|..] == a && (root + b)[|root|..] == b;
  }

  /** Between two states nothing but the file at `p` differs. */
  ghost predicate OnlyFile(d: Disk, d': Disk, p: Path) {
    d'.dirs == d.dirs && d'.files - {p} == d.files - {p}
  }

  ghost predicate OnlyNewDirs(d: Disk, d': Disk, p: Path) {
    d'.files == d.files && d.dirs <= d'.dirs <= d.dirs + Prefixes(p)
  }

  /** `q` is `p` or lies below it. */
  predicate Under(q: Path, p: Path) {
    |p| <= |q| && q[..|p|] == p
  }

  lemma UnderIff(q: Path, p: Path)
    ensures Under(q, p) <==> exists rest :: q == p + rest
  {
    if Under(q, p) {
      assert q == p + q[|p|..];
    }
  }

  /** Between two states nothing outside `p` differs, and below `p` things only disappear. */
  ghost predicate OnlyRemovedUnder(d: Disk, d': Disk, p: Path) {
    && d'.dirs <= d.dirs && (forall q | q in d.dirs && !Under(q, p) :: q in d'.dirs)
    && (forall q | q in d'.files :: q in d.files && d'.files[q] == d.files[q])
    && (forall q | q in d.files && !Under(q, p) :: q in d'.files)
  }

  class FileSystem {
    var disk: Disk
    /** Whether `rename` onto an existing file replaces it, as POSIX requires. */
    const overwrites: bool
    /** Whether calls fail only for a reason that shows on the disk. */
    const reliable: bool
    ghost var trace: seq<Disk>

    ghost predicate Valid()
      reads this
    {
      trace != [] && trace[|trace| - 1] == disk
    }

    constructor (d: Disk, overwrites: bool, reliable: bool)
      ensures Valid() && disk == d && trace == [d]
      ensures this.overwrites == overwrites && this.reliable == reliable
    {
      disk, trace := d, [d];
      this.overwrites, this.reliable := overwrites, reliable;
    }

    /** `fs::create_dir_all`: directories appear one by one. */
    method CreateDirAll(p: Path) returns (r: Io)
      requires Valid()
      modifies this
      ensures Valid() && old(trace) <= trace
      ensures forall i | |old(trace)| <= i < |trace| :: OnlyNewDirs(old(disk), trace[i], p)
      ensures OnlyNewDirs(old(disk), disk, p)
      ensures r.Done? ==> disk.dirs == old(disk.dirs) + Prefixes(p)
      ensures reliable && Prefixes(p) !! disk.files.Keys ==> r.Done?
    {
      for k := 1 to |p| + 1
        invariant Valid() && old(trace) <= trace
        invariant forall i | |old(trace)| <= i < |trace| :: OnlyNewDirs(old(disk), trace[i], p)
        invariant OnlyNewDirs(old(disk), disk, p)
        invariant forall i | 0 < i < k :: p[..i] in disk.dirs
      {
        if p[..k] !in disk.dirs {
          if p[..k] in disk.files { return Failed; }
          if !reliable { if * { return Failed; } }
          disk := disk.(dirs := disk.dirs + {p[..k]});
          trace := trace + [disk];
        }
      }
      r := Done;
    }

    /** `fs::write`: a failed or interrupted write may leave any part of the contents. */
    method Write(p: Path, contents: seq<byte>) returns (r: Io)
      requires Valid()
      modifies this
      ensures Valid() && old(trace) <= trace
      ensures forall i | |old(trace)| <= i < |trace| :: OnlyFile(old(disk), trace[i], p)
      ensures OnlyFile(old(disk), disk, p)
      ensures r.Done? ==> disk.files == old(disk.files)[p := contents]
      ensures reliable && p !in disk.dirs ==> r.Done?
    {
      if p in disk.dirs { return Failed; }
      if !reliable { if * { return Failed; } }
      var part: nat :| part <= |contents|;
      disk := disk.(files := disk.files[p := contents[..part]]);
      trace := trace + [disk];
      if !reliable { if * { return Failed; } }
      disk := disk.(files := disk.files[p := contents]);
      trace := trace + [disk];
      r := Done;
    }

    /** `fs::remove_file`. */
    method RemoveFile(p: Path) returns (r: Io)
      requires Valid()
      modifies this
      ensures Valid() && trace == if r.Done? then old(trace) + [disk] else old(trace)
      ensures r.Done? ==> p in old(disk.files) && disk == old(disk).(files := old(disk.files) - {p})
      ensures !r.Done? ==> disk == old(disk)
      ensures r.NotFound? ==> p !in disk.files
      ensures reliable && p in old(disk.files) ==> r.Done?
      ensures reliable && p !in disk.dirs ==> r.Done? || r.NotFound?
    {
      if !reliable { if * { return Failed; } }
      if p in disk.files {
        disk := disk.(files := disk.files - {p});
        trace := trace + [disk];
        return Done;
      }
      r := if p in disk.dirs then Failed else NotFound;
    }

    /** `fs::remove_dir`: only an empty directory goes. */
    method RemoveDir(p: Path) returns (r: Io)
      requires Valid()
      modifies this
      ensures Valid() && trace == if r.Done? then old(trace) + [disk] else old(trace)
      ensures r.Done? ==> p in old(disk.dirs) && IsEmptyDir(old(disk), p)
                          && disk == old(disk).(dirs := old(disk.dirs) - {p})
      ensures !r.Done? ==> disk == old(disk)
      ensures r.NotFound? ==> p !in disk.dirs
      ensures reliable && p in old(disk.dirs) && IsEmptyDir(old(disk), p) ==> r.Done?
    {
      if !reliable { if * { return Failed; } }
      if p !in disk.dirs { return NotFound; }
      if !IsEmptyDir(disk, p) { return Failed; }
      disk := disk.(dirs := disk.dirs - {p});
      trace := trace + [disk];
      r := Done;
    }

    /** `fs::read_dir`: the entries at this moment. */
    method ReadDir(p: Path) returns (r: Io, entries: set<Path>)
      requires Valid()
      ensures r.Done? ==>
                entries == (set q | q in disk.files && ChildOf(q, p)) + (set q | q in disk.dirs && ChildOf(q, p))
      ensures r.NotFound? ==> p !in disk.dirs
      ensures reliable ==> if p in disk.dirs then r.Done? else r.NotFound?
    {
      entries := {};
      if !reliable { if * { return Failed, entries; } }
      if p !in disk.dirs { return NotFound, entries; }
      entries := (set q | q in disk.files && ChildOf(q, p)) + (set q | q in disk.dirs && ChildOf(q, p));
      r := Done;
    }

    /** `fs::remove_dir_all`: stops anywhere when it fails. */
    method RemoveDirAll(p: Path)
      requires Valid()
      modifies this
      ensures Valid() && old(trace) <= trace
      ensures forall i | |old(trace)| <= i < |trace| :: OnlyRemovedUnder(old(disk), trace[i], p)
      ensures OnlyRemovedUnder(old(disk), disk, p)
    {
      var files := set q | q in disk.files && Under(q, p);
      while files != {}
        invariant Valid() && old(trace) <= trace && files <= disk.files.Keys
        invariant forall q | q in files :: Under(q, p)
        invariant forall i | |old(trace)| <= i < |trace| :: OnlyRemovedUnder(old(disk), trace[i], p)
        invariant OnlyRemovedUnder(old(disk), disk, p)
        decreases files
      {
        if * { return; }
        var q :| q in files;
        files := files - {q};
        disk := disk.(files := disk.files - {q});
        trace := trace + [disk];
      }
      if * { return; }
      disk := disk.(dirs := set q | q in disk.dirs && !Under(q, p));
      trace := trace + [disk];
    }

    /** `fs::rename` of a file: atomic. Where it does not overwrite, it refuses an existing target. */
    method Rename(src: Path, dst: Path) returns (r: Io)
      requires Valid()
      modifies this
      ensures Valid() && trace == if r.Done? then old(trace) + [disk] else old(trace)
      ensures r.Done? ==> src in old(disk.files) && (overwrites || dst !in old(disk.files))
                          && disk == old(disk).(files := (old(disk.files) - {src})[dst := old(disk.files)[src]])
      ensures !r.Done? ==> disk == old(disk)
      ensures r.AlreadyExists? ==> dst in disk.files && !overwrites
      ensures reliable && src in old(disk.files) ==> r.Done? || r.AlreadyExists?
    {
      if !reliable { if * { return Failed; } }
      if src !in disk.files { return NotFound; }
      if dst in disk.files && !overwrites { return AlreadyExists; }
      disk := disk.(files := (disk.files - {src})[dst := disk.files[src]]);
      trace := trace + [disk];
      r := Done;
    }
  }
}
