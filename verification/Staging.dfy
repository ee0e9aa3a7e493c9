/** Installing a cascade (`edda-cache/src/store/staging.rs`, `StagingHandle::commit`), with a crash or
    an error possible at every filesystem step. */
module Staging {
  import opened Bytes
  import opened Manifests
  import opened Disks

  datatype PendingArtifact = PendingArtifact(finalPath: Path, stagingName: Str)

  datatype CommitError = IoFailed(at: Path) | SizeAnomaly

  function Src(dir: Path, p: PendingArtifact): Path {
    dir + [p.stagingName]
  }

  // ----- atomic_rename -----

  ghost function Moved(d: Disk, src: Path, dst: Path): Disk
    requires src in d.files
  {
    d.(files := (d.files - {src})[dst := d.files[src]])
  }

  ghost function Without(d: Disk, p: Path): Disk {
    d.(files := d.files - {p})
  }

  /** Where `rename` overwrites, the rename is one step. Elsewhere an existing target is removed first: the
      disk then passes through exactly one state without it, and stays there if the second rename fails. */
  method AtomicRename(fs: FileSystem, src: Path, dst: Path) returns (ok: bool, ghost gap: bool)
    requires fs.Valid() && src != dst
    modifies fs
    ensures fs.Valid()
    ensures fs.trace
         == old(fs.trace) + (if gap then [Without(old(fs.disk), dst)] else []) + if ok then [fs.disk] else []
    ensures ok ==> src in old(fs.disk.files) && fs.disk == Moved(old(fs.disk), src, dst)
    ensures !ok ==> fs.disk == if gap then Without(old(fs.disk), dst) else old(fs.disk)
    ensures gap ==> !fs.overwrites && dst in old(fs.disk.files)
    ensures ok ==> (gap <==> !fs.overwrites && dst in old(fs.disk.files))
    ensures fs.reliable && src in old(fs.disk.files) ==> ok
  {
    gap := false;
    var io := fs.Rename(src, dst);
    if io.Done? { return true, false; }
    if !io.AlreadyExists? { return false, false; }
    io := fs.RemoveFile(dst);
    if !io.Done? { return false, false; }
    gap := true;
    io := fs.Rename(src, dst);
    ok := io.Done?;
    assert ok ==> fs.disk == Moved(old(fs.disk), src, dst);
  }

  // ----- Where things lie -----

  /** The manifest's path with `.new` appended to the file name. */
  function StagedManifest(m: Path): (r: Path)
    requires m != []
    ensures r != m && |r| == |m|
  {
    var last := |m| - 1;
    assert |m[last] + Ascii(".new")| == |m[last]| + 4;
    m[..last] + [m[last] + Ascii(".new")]
  }

  /** Final paths, the manifest and its `.new` file are different places outside the staging directory. */
  ghost predicate Apart(dir: Path, pending: seq<PendingArtifact>, m: Path) {
    && m != [] && !Under(m, dir) && !Under(StagedManifest(m), dir)
    && (forall i | 0 <= i < |pending| ::
          !Under(pending[i].finalPath, dir) && pending[i].finalPath != m && pending[i].finalPath != StagedManifest(m))
  }

  ghost predicate DistinctNames(pending: seq<PendingArtifact>) {
    forall i, j | 0 <= i < j < |pending| :: pending[i].stagingName != pending[j].stagingName
  }

  ghost predicate AllStaged(d: Disk, dir: Path, pending: seq<PendingArtifact>) {
    forall i | 0 <= i < |pending| :: Src(dir, pending[i]) in d.files
  }

  lemma SrcUnder(dir: Path, p: PendingArtifact)
    ensures Under(Src(dir, p), dir)
  {
  }

  lemma SrcDistinct(dir: Path, p: PendingArtifact, q: PendingArtifact)
    ensures Src(dir, p) == Src(dir, q) <==> p.stagingName == q.stagingName
  {
    assert Src(dir, p)[|dir|] == p.stagingName && Src(dir, q)[|dir|] == q.stagingName;
  }

  // ----- What the disk shows at each point of a commit -----

  /** A commit: the disk it starts from, what it installs, and the new manifest's path and text. */
  datatype Cascade = Cascade(start: Disk, dir: Path, pending: seq<PendingArtifact>, m: Path, text: seq<byte>)

  ghost predicate WellFormed(c: Cascade) {
    Apart(c.dir, c.pending, c.m) && DistinctNames(c.pending) && AllStaged(c.start, c.dir, c.pending)
  }

  /** The files outside the staging directory, the `.new` file aside. */
  ghost function View(c: Cascade, d: Disk): map<Path, seq<byte>>
    requires c.m != []
  {
    map p | p in d.files && !Under(p, c.dir) && p != StagedManifest(c.m) :: d.files[p]
  }

  /** The view with the first `k` artifacts installed and nothing else changed. */
  ghost function Installed(c: Cascade, k: nat): map<Path, seq<byte>>
    requires WellFormed(c) && k <= |c.pending|
  {
    if k == 0 then View(c, c.start)
    else Installed(c, k - 1)[c.pending[k - 1].finalPath := c.start.files[Src(c.dir, c.pending[k - 1])]]
  }

  /** The points a commit passes through. At a gap the target of the next rename has been removed. */
  datatype Point = Artifacts(k: nat) | ArtifactGap(k: nat) | ManifestGap | Swapped

  /** Gaps occur only for targets that are there, on filesystems whose `rename` does not overwrite. */
  ghost predicate Possible(c: Cascade, overwrites: bool, pt: Point)
    requires WellFormed(c)
  {
    match pt
    case Artifacts(k) => k <= |c.pending|
    case ArtifactGap(k) => !overwrites && k < |c.pending| && c.pending[k].finalPath in Installed(c, k)
    case ManifestGap => !overwrites && c.m in c.start.files
    case Swapped => true
  }

  ghost function ViewAt(c: Cascade, overwrites: bool, pt: Point): map<Path, seq<byte>>
    requires WellFormed(c) && Possible(c, overwrites, pt)
  {
    match pt
    case Artifacts(k) => Installed(c, k)
    case ArtifactGap(k) => Installed(c, k) - {c.pending[k].finalPath}
    case ManifestGap => Installed(c, |c.pending|) - {c.m}
    case Swapped => Installed(c, |c.pending|)[c.m := c.text]
  }

  /** The disk is at this point: every file outside the staging directory, the `.new` file aside, is there with
      the contents of that point, and no other. */
  ghost predicate Shows(c: Cascade, overwrites: bool, d: Disk, pt: Point) {
    WellFormed(c) && Possible(c, overwrites, pt) && View(c, d) == ViewAt(c, overwrites, pt)
  }

  ghost predicate ShowsSome(c: Cascade, overwrites: bool, d: Disk) {
    exists pt :: Shows(c, overwrites, d, pt)
  }

  /** What is not yet installed is still staged. */
  ghost predicate StillStaged(c: Cascade, d: Disk, k: nat)
    requires AllStaged(c.start, c.dir, c.pending)
  {
    forall i | k <= i < |c.pending| ::
      && Src(c.dir, c.pending[i]) in d.files
      && d.files[Src(c.dir, c.pending[i])] == c.start.files[Src(c.dir, c.pending[i])]
  }

  // ----- Steps -----

  lemma ViewOfMoved(c: Cascade, d: Disk, src: Path, dst: Path)
    requires c.m != [] && src in d.files && (Under(src, c.dir) || src == StagedManifest(c.m))
    requires !Under(dst, c.dir) && dst != StagedManifest(c.m)
    ensures View(c, Moved(d, src, dst)) == View(c, d)[dst := d.files[src]]
  {
  }

  lemma ViewOfWithout(c: Cascade, d: Disk, dst: Path)
    requires c.m != []
    ensures View(c, Without(d, dst)) == View(c, d) - {dst}
  {
  }

  lemma StagedAfterMove(c: Cascade, d: Disk, k: nat)
    requires WellFormed(c) && k < |c.pending| && StillStaged(c, d, k)
    ensures StillStaged(c, Moved(d, Src(c.dir, c.pending[k]), c.pending[k].finalPath), k + 1)
  {
    forall i | k < i < |c.pending|
      ensures Src(c.dir, c.pending[i]) != Src(c.dir, c.pending[k]) && Src(c.dir, c.pending[i]) != c.pending[k].finalPath
    {
      SrcUnder(c.dir, c.pending[i]);
      SrcDistinct(c.dir, c.pending[k], c.pending[i]);
    }
  }

  /** No ancestor of a path the commit writes is, or becomes, a file, and the `.new` file is no directory. */
  ghost predicate Unobstructed(c: Cascade)
    requires c.m != []
  {
    && StagedManifest(c.m) !in c.start.dirs
    && forall p | p in Targets(c) :: forall l | 0 < l < |p| :: p[..l] !in c.start.files && p[..l] !in Targets(c)
  }

  ghost function Targets(c: Cascade): set<Path>
    requires c.m != []
  {
    (set i | 0 <= i < |c.pending| :: c.pending[i].finalPath) + {c.m, StagedManifest(c.m)}
  }

  /** Installing adds no path but the final ones. */
  lemma {:induction false} InstalledKeys(c: Cascade, k: nat)
    requires WellFormed(c) && k <= |c.pending|
    ensures forall p | p in Installed(c, k) :: p in c.start.files || p in Targets(c)
    ensures c.m in Installed(c, k) <==> c.m in c.start.files
    ensures c.m in c.start.files ==> Installed(c, k)[c.m] == c.start.files[c.m]
  {
    if k > 0 {
      InstalledKeys(c, k - 1);
    }
  }

  ghost function Parent(p: Path): Path
    requires p != []
  {
    p[..|p| - 1]
  }

  /** While the artifacts are being installed nothing stands in the way of a target. */
  lemma PathIsClear(c: Cascade, d: Disk, k: nat, p: Path)
    requires WellFormed(c) && k <= |c.pending| && Unobstructed(c) && View(c, d) == Installed(c, k)
    requires p in Targets(c) && p != [] && !Under(p, c.dir)
    ensures Prefixes(Parent(p)) !! d.files.Keys
  {
    InstalledKeys(c, k);
    forall q | q in Prefixes(Parent(p)) ensures q !in d.files {
      var l :| 0 < l <= |p| - 1 && q == Parent(p)[..l];
      assert q == p[..l];
      assert q !in c.start.files && q !in Targets(c);
    }
  }

  lemma NewIsNoDir(c: Cascade, d: Disk, d': Disk, p: Path)
    requires c.m != [] && Unobstructed(c) && p in Targets(c) && p != []
    requires OnlyNewDirs(d, d', Parent(p)) && StagedManifest(c.m) !in d.dirs
    ensures StagedManifest(c.m) !in d'.dirs
  {
    forall q | q in Prefixes(Parent(p)) ensures q != StagedManifest(c.m) {
      var l :| 0 < l <= |p| - 1 && q == Parent(p)[..l];
      assert q == p[..l];
    }
  }

  // ----- Installing the artifacts -----

  /** Exactly the first `k` artifacts are installed and the others still staged. */
  ghost predicate Ready(c: Cascade, d: Disk, k: nat) {
    WellFormed(c) && k <= |c.pending| && View(c, d) == Installed(c, k) && StillStaged(c, d, k)
  }

  /** Directories are not part of the view. */
  lemma ReadyIgnoresDirs(c: Cascade, d: Disk, d': Disk, k: nat)
    requires Ready(c, d, k) && d'.files == d.files
    ensures Ready(c, d', k)
  {
  }

  lemma ReadyShows(c: Cascade, overwrites: bool, d: Disk, k: nat)
    requires Ready(c, d, k)
    ensures Shows(c, overwrites, d, Artifacts(k))
  {
  }

  /** The two states a rename of the next artifact can lead to. */
  lemma RenameShows(c: Cascade, overwrites: bool, d: Disk, k: nat)
    requires Ready(c, d, k) && k < |c.pending|
    ensures Src(c.dir, c.pending[k]) in d.files
    ensures Ready(c, Moved(d, Src(c.dir, c.pending[k]), c.pending[k].finalPath), k + 1)
    ensures !overwrites && c.pending[k].finalPath in d.files ==>
              Shows(c, overwrites, Without(d, c.pending[k].finalPath), ArtifactGap(k))
  {
    var src, dst := Src(c.dir, c.pending[k]), c.pending[k].finalPath;
    SrcUnder(c.dir, c.pending[k]);
    ViewOfMoved(c, d, src, dst);
    ViewOfWithout(c, d, dst);
    StagedAfterMove(c, d, k);
    assert dst in d.files ==> dst in View(c, d);
  }

  /** `create_dir_all` of the target's parent. */
  method PrepareParent(fs: FileSystem, ghost c: Cascade, dst: Path, ghost k: nat) returns (ok: bool)
    requires fs.Valid() && Ready(c, fs.disk, k) && dst in Targets(c) && !Under(dst, c.dir)
    modifies fs
    ensures fs.Valid() && old(fs.trace) <= fs.trace && Ready(c, fs.disk, k) && fs.disk.files == old(fs.disk.files)
    ensures forall i | |old(fs.trace)| <= i < |fs.trace| :: Shows(c, fs.overwrites, fs.trace[i], Artifacts(k))
    ensures Unobstructed(c) && StagedManifest(c.m) !in old(fs.disk.dirs) ==>
              StagedManifest(c.m) !in fs.disk.dirs && (fs.reliable ==> ok)
  {
    if dst == [] { return true; }
    ghost var d, n := fs.disk, |fs.trace|;
    if Unobstructed(c) { PathIsClear(c, d, k, dst); }
    var io := fs.CreateDirAll(dst[..|dst| - 1]);
    forall i | n <= i < |fs.trace| ensures Shows(c, fs.overwrites, fs.trace[i], Artifacts(k)) {
      ReadyIgnoresDirs(c, d, fs.trace[i], k);
      ReadyShows(c, fs.overwrites, fs.trace[i], k);
    }
    ReadyIgnoresDirs(c, d, fs.disk, k);
    if Unobstructed(c) && StagedManifest(c.m) !in d.dirs { NewIsNoDir(c, d, fs.disk, dst); }
    ok := io.Done?;
  }

  /** Before the manifest is touched, with the first `k` artifacts done. */
  ghost predicate Near(c: Cascade, overwrites: bool, d: Disk, k: nat) {
    Shows(c, overwrites, d, Artifacts(k)) || Shows(c, overwrites, d, ArtifactGap(k))
  }

  /** Some state from `n` on is at this point. */
  ghost predicate Visits(c: Cascade, overwrites: bool, trace: seq<Disk>, n: nat, pt: Point) {
    exists i :: n <= i < |trace| && Shows(c, overwrites, trace[i], pt)
  }

  lemma VisitsMore(c: Cascade, overwrites: bool, trace: seq<Disk>, trace': seq<Disk>, n: nat, pt: Point)
    requires Visits(c, overwrites, trace, n, pt) && trace <= trace'
    ensures Visits(c, overwrites, trace', n, pt)
  {
    var i :| n <= i < |trace| && Shows(c, overwrites, trace[i], pt);
    assert trace'[i] == trace[i];
  }

  /** Step 1 of `commit` for one artifact. */
  method InstallOne(fs: FileSystem, ghost c: Cascade, dir: Path, pending: seq<PendingArtifact>, k: nat)
    returns (r: Result<(), CommitError>)
    requires fs.Valid() && Ready(c, fs.disk, k) && dir == c.dir && pending == c.pending && k < |pending|
    modifies fs
    ensures fs.Valid() && old(fs.trace) <= fs.trace
    ensures forall i | |old(fs.trace)| <= i < |fs.trace| ::
              Near(c, fs.overwrites, fs.trace[i], k) || Near(c, fs.overwrites, fs.trace[i], k + 1)
    ensures r.Ok? ==> Ready(c, fs.disk, k + 1) && |old(fs.trace)| < |fs.trace|
    ensures r.Ok? && Possible(c, fs.overwrites, ArtifactGap(k)) ==>
              Visits(c, fs.overwrites, fs.trace, |old(fs.trace)|, ArtifactGap(k))
    ensures r.Err? ==> Near(c, fs.overwrites, fs.disk, k)
    ensures Unobstructed(c) && StagedManifest(c.m) !in old(fs.disk.dirs) ==>
              StagedManifest(c.m) !in fs.disk.dirs && (fs.reliable ==> r.Ok?)
  {
    var dst := pending[k].finalPath;
    var ok := PrepareParent(fs, c, dst, k);
    ReadyShows(c, fs.overwrites, fs.disk, k);
    if !ok { return Err(IoFailed(dst)); }
    ghost var d := fs.disk;
    RenameShows(c, fs.overwrites, d, k);
    SrcUnder(dir, pending[k]);
    ghost var n, gap := |fs.trace|, false;
    ok, gap := AtomicRename(fs, Src(dir, pending[k]), dst);
    if !ok { return Err(IoFailed(dst)); }
    ReadyShows(c, fs.overwrites, fs.disk, k + 1);
    assert gap ==> Shows(c, fs.overwrites, fs.trace[n], ArtifactGap(k));
    r := Ok(());
  }

  ghost predicate ShowsArtifacts(c: Cascade, overwrites: bool, d: Disk) {
    exists k: nat :: Near(c, overwrites, d, k)
  }

  /** Every number of installed artifacts up to `k` has been seen, and every gap before it that is possible. */
  ghost predicate VisitsUpTo(c: Cascade, overwrites: bool, trace: seq<Disk>, n: nat, k: nat)
    requires WellFormed(c)
  {
    && (forall j: nat | 0 < j <= k :: Visits(c, overwrites, trace, n, Artifacts(j)))
    && (forall j: nat | j < k && Possible(c, overwrites, ArtifactGap(j)) ::
          Visits(c, overwrites, trace, n, ArtifactGap(j)))
  }

  lemma VisitsUpToMore(c: Cascade, overwrites: bool, trace: seq<Disk>, trace': seq<Disk>, n: nat, k: nat)
    requires WellFormed(c) && VisitsUpTo(c, overwrites, trace, n, k) && trace <= trace'
    ensures VisitsUpTo(c, overwrites, trace', n, k)
  {
    forall j: nat | 0 < j <= k ensures Visits(c, overwrites, trace', n, Artifacts(j)) {
      VisitsMore(c, overwrites, trace, trace', n, Artifacts(j));
    }
    forall j: nat | j < k && Possible(c, overwrites, ArtifactGap(j))
      ensures Visits(c, overwrites, trace', n, ArtifactGap(j))
    {
      VisitsMore(c, overwrites, trace, trace', n, ArtifactGap(j));
    }
  }

  lemma VisitsEarlier(c: Cascade, overwrites: bool, trace: seq<Disk>, m: nat, n: nat, pt: Point)
    requires n <= m && Visits(c, overwrites, trace, m, pt)
    ensures Visits(c, overwrites, trace, n, pt)
  {
  }

  lemma VisitsNext(c: Cascade, overwrites: bool, trace: seq<Disk>, trace': seq<Disk>, n: nat, k: nat)
    requires WellFormed(c) && VisitsUpTo(c, overwrites, trace, n, k) && trace <= trace' && n <= |trace| < |trace'|
    requires Ready(c, trace'[|trace'| - 1], k + 1)
    requires Possible(c, overwrites, ArtifactGap(k)) ==> Visits(c, overwrites, trace', |trace|, ArtifactGap(k))
    ensures VisitsUpTo(c, overwrites, trace', n, k + 1)
  {
    VisitsUpToMore(c, overwrites, trace, trace', n, k);
    ReadyShows(c, overwrites, trace'[|trace'| - 1], k + 1);
    if Possible(c, overwrites, ArtifactGap(k)) { VisitsEarlier(c, overwrites, trace', |trace|, n, ArtifactGap(k)); }
  }

  /** Step 1 of `commit`. A successful installation passes through every number of installed artifacts, and through
      the removal of every target that is there where `rename` does not overwrite. */
  method InstallAll(fs: FileSystem, ghost c: Cascade, dir: Path, pending: seq<PendingArtifact>)
    returns (r: Result<(), CommitError>)
    requires fs.Valid() && WellFormed(c) && c.start == fs.disk && dir == c.dir && pending == c.pending
    modifies fs
    ensures fs.Valid() && old(fs.trace) <= fs.trace
    ensures forall i | |old(fs.trace)| <= i < |fs.trace| :: ShowsArtifacts(c, fs.overwrites, fs.trace[i])
    ensures r.Ok? ==> Ready(c, fs.disk, |pending|)
                      && VisitsUpTo(c, fs.overwrites, fs.trace, |old(fs.trace)|, |pending|)
    ensures r.Err? ==> ShowsArtifacts(c, fs.overwrites, fs.disk)
    ensures Unobstructed(c) ==> StagedManifest(c.m) !in fs.disk.dirs && (fs.reliable ==> r.Ok?)
  {
    ghost var n0 := |fs.trace|;
    assert Ready(c, fs.disk, 0);
    for k := 0 to |pending|
      invariant fs.Valid() && old(fs.trace) <= fs.trace && Ready(c, fs.disk, k)
      invariant forall i | n0 <= i < |fs.trace| :: ShowsArtifacts(c, fs.overwrites, fs.trace[i])
      invariant VisitsUpTo(c, fs.overwrites, fs.trace, n0, k)
      invariant Unobstructed(c) ==> StagedManifest(c.m) !in fs.disk.dirs
    {
      ghost var before := fs.trace;
      r := InstallOne(fs, c, dir, pending, k);
      if r.Err? { return; }
      VisitsNext(c, fs.overwrites, before, fs.trace, n0, k);
    }
    r := Ok(());
  }

  // ----- commit -----

  const PER_ENTRY_BUDGET: nat := 32 * 1024

  const HEADER_BUDGET: nat := 4 * 1024

  const USIZE_MAX: nat := 0xffff_ffff_ffff_ffff

  function Saturate(n: nat): nat {
    if n <= USIZE_MAX then n else USIZE_MAX
  }

  /** The size guard on the serialised manifest. */
  predicate SizeIsAnomalous(artifactCount: nat, textLength: nat) {
    textLength > Saturate(Saturate(PER_ENTRY_BUDGET * artifactCount) + HEADER_BUDGET)
  }

  /** At most 4 KiB and 32 KiB for each artifact, or whatever a length can be where that needs more than 64 bits. */
  lemma SizeIsAnomalousIff(artifactCount: nat, textLength: nat)
    requires textLength < 0x1_0000_0000_0000_0000
    ensures SizeIsAnomalous(artifactCount, textLength) <==> textLength > 32768 * artifactCount + 4096
  {
  }

  /** Neither is the `.new` file. */
  lemma ReadyIgnoresNew(c: Cascade, d: Disk, d': Disk)
    requires Ready(c, d, |c.pending|) && OnlyFile(d, d', StagedManifest(c.m))
    ensures Ready(c, d', |c.pending|)
  {
    var n := StagedManifest(c.m);
    assert View(c, d') == View(c, d) by {
      forall p | p != n ensures p in d.files <==> p in d'.files {
        assert p in d.files <==> p in d.files - {n};
        assert p in d'.files <==> p in d'.files - {n};
      }
      forall p | p != n && p in d.files ensures d.files[p] == d'.files[p] {
        assert (d.files - {n})[p] == d.files[p] && (d'.files - {n})[p] == d'.files[p];
      }
    }
  }

  /** The two states the swap can lead to. */
  lemma SwapShows(c: Cascade, overwrites: bool, d: Disk)
    requires Ready(c, d, |c.pending|) && StagedManifest(c.m) in d.files && d.files[StagedManifest(c.m)] == c.text
    ensures Shows(c, overwrites, Moved(d, StagedManifest(c.m), c.m), Swapped)
    ensures c.m in d.files <==> c.m in c.start.files
    ensures !overwrites && c.m in d.files ==> Shows(c, overwrites, Without(d, c.m), ManifestGap)
  {
    ViewOfMoved(c, d, StagedManifest(c.m), c.m);
    ViewOfWithout(c, d, c.m);
    InstalledKeys(c, |c.pending|);
    assert c.m in d.files <==> c.m in View(c, d);
  }

  /** What a failed commit leaves: any point but the last. */
  ghost predicate Unswapped(c: Cascade, overwrites: bool, d: Disk) {
    ShowsArtifacts(c, overwrites, d) || Shows(c, overwrites, d, ManifestGap)
  }

  /** Step 2 of `commit`: write the new manifest beside the old one and rename it over. */
  method SwapManifest(fs: FileSystem, ghost c: Cascade, m: Path, text: seq<byte>, artifactCount: nat)
    returns (r: Result<(), CommitError>)
    requires fs.Valid() && Ready(c, fs.disk, |c.pending|) && m == c.m && text == c.text
    modifies fs
    ensures fs.Valid() && old(fs.trace) <= fs.trace
    ensures forall i | |old(fs.trace)| <= i < |fs.trace| :: ShowsSome(c, fs.overwrites, fs.trace[i])
    ensures r.Ok? ==> Shows(c, fs.overwrites, fs.disk, Swapped) && StagedManifest(m) !in fs.disk.files
    ensures r.Ok? && !fs.overwrites && m in c.start.files ==>
              Visits(c, fs.overwrites, fs.trace, |old(fs.trace)|, ManifestGap)
    ensures r.Err? ==> Unswapped(c, fs.overwrites, fs.disk)
    ensures fs.reliable && Unobstructed(c) && StagedManifest(m) !in old(fs.disk.dirs) ==>
              (r.Ok? <==> !SizeIsAnomalous(artifactCount, |text|))
  {
    var staged := StagedManifest(m);
    var ok := PrepareParent(fs, c, m, |c.pending|);
    ReadyShows(c, fs.overwrites, fs.disk, |c.pending|);
    assert Near(c, fs.overwrites, fs.disk, |c.pending|);
    if !ok { return Err(IoFailed(m)); }
    if SizeIsAnomalous(artifactCount, |text|) { return Err(SizeAnomaly); }
    ghost var d, n := fs.disk, |fs.trace|;
    var io := fs.Write(staged, text);
    forall i | n <= i < |fs.trace| ensures Shows(c, fs.overwrites, fs.trace[i], Artifacts(|c.pending|)) {
      ReadyIgnoresNew(c, d, fs.trace[i]);
      ReadyShows(c, fs.overwrites, fs.trace[i], |c.pending|);
    }
    ReadyIgnoresNew(c, d, fs.disk);
    ReadyShows(c, fs.overwrites, fs.disk, |c.pending|);
    assert Near(c, fs.overwrites, fs.disk, |c.pending|);
    if !io.Done? { return Err(IoFailed(staged)); }
    SwapShows(c, fs.overwrites, fs.disk);
    n := |fs.trace|;
    ghost var gap;
    ok, gap := AtomicRename(fs, staged, m);
    assert gap ==> Shows(c, fs.overwrites, fs.trace[n], ManifestGap);
    if !ok { return Err(IoFailed(m)); }
    r := Ok(());
  }

  lemma DropKeepsPoint(c: Cascade, overwrites: bool, d: Disk, d': Disk, pt: Point)
    requires Shows(c, overwrites, d, pt) && OnlyRemovedUnder(d, d', c.dir)
    ensures Shows(c, overwrites, d', pt)
  {
    assert View(c, d') == View(c, d);
  }

  lemma DropKeepsUnswapped(c: Cascade, overwrites: bool, d: Disk, d': Disk)
    requires Unswapped(c, overwrites, d) && OnlyRemovedUnder(d, d', c.dir)
    ensures Unswapped(c, overwrites, d')
  {
    if ShowsArtifacts(c, overwrites, d) {
      var k: nat :| Near(c, overwrites, d, k);
      var pt := if Shows(c, overwrites, d, Artifacts(k)) then Artifacts(k) else ArtifactGap(k);
      DropKeepsPoint(c, overwrites, d, d', pt);
      assert Near(c, overwrites, d', k);
    } else {
      DropKeepsPoint(c, overwrites, d, d', ManifestGap);
    }
  }

  /** `Drop`, and the last step of a successful commit: `remove_dir_all` of the staging directory. */
  method DropStaging(fs: FileSystem, ghost c: Cascade, dir: Path)
    requires fs.Valid() && dir == c.dir && ShowsSome(c, fs.overwrites, fs.disk)
    modifies fs
    ensures fs.Valid() && old(fs.trace) <= fs.trace
    ensures Shows(c, fs.overwrites, old(fs.disk), Swapped) ==> Shows(c, fs.overwrites, fs.disk, Swapped)
    ensures Unswapped(c, fs.overwrites, old(fs.disk)) ==> Unswapped(c, fs.overwrites, fs.disk)
    ensures forall i | |old(fs.trace)| <= i < |fs.trace| :: ShowsSome(c, fs.overwrites, fs.trace[i])
    ensures fs.disk.files.Keys <= old(fs.disk.files.Keys)
  {
    ghost var d, n := fs.disk, |fs.trace|;
    ghost var pt :| Shows(c, fs.overwrites, d, pt);
    fs.RemoveDirAll(dir);
    forall i | n <= i < |fs.trace| ensures ShowsSome(c, fs.overwrites, fs.trace[i]) {
      DropKeepsPoint(c, fs.overwrites, d, fs.trace[i], pt);
    }
    if Shows(c, fs.overwrites, d, Swapped) { DropKeepsPoint(c, fs.overwrites, d, fs.disk, Swapped); }
    if Unswapped(c, fs.overwrites, d) { DropKeepsUnswapped(c, fs.overwrites, d, fs.disk); }
  }

  lemma ArtifactsAreSome(c: Cascade, overwrites: bool, d: Disk)
    requires Unswapped(c, overwrites, d)
    ensures ShowsSome(c, overwrites, d)
  {
    if ShowsArtifacts(c, overwrites, d) {
      var k: nat :| Near(c, overwrites, d, k);
    }
  }

  // ----- What the points mean -----

  /** How many artifacts a disk shows at a point. */
  ghost function Count(c: Cascade, pt: Point): nat {
    if pt.Artifacts? || pt.ArtifactGap? then pt.k else |c.pending|
  }

  /** The last of the first `k` artifacts that goes to `p`. */
  ghost predicate LastTo(c: Cascade, k: nat, p: Path, i: nat) {
    i < k <= |c.pending| && c.pending[i].finalPath == p && forall j | i < j < k :: c.pending[j].finalPath != p
  }

  /** Each final path holds the staged bytes of the last artifact that goes there. */
  lemma {:induction false} InstalledLast(c: Cascade, k: nat, i: nat)
    requires WellFormed(c) && i < |c.pending| && LastTo(c, k, c.pending[i].finalPath, i)
    ensures var p := c.pending[i].finalPath;
            p in Installed(c, k) && Installed(c, k)[p] == c.start.files[Src(c.dir, c.pending[i])]
    decreases k
  {
    if i < k - 1 {
      assert LastTo(c, k - 1, c.pending[i].finalPath, i);
      InstalledLast(c, k - 1, i);
    }
  }

  /** Every other file is as it was. */
  lemma {:induction false} InstalledOther(c: Cascade, k: nat, p: Path)
    requires WellFormed(c) && k <= |c.pending| && forall i | 0 <= i < k :: c.pending[i].finalPath != p
    ensures p in Installed(c, k) <==> p in View(c, c.start)
    ensures p in Installed(c, k) ==> Installed(c, k)[p] == View(c, c.start)[p]
  {
    if k > 0 {
      InstalledOther(c, k - 1, p);
    }
  }

  ghost predicate SameAt(d0: Disk, d: Disk, p: Path) {
    (p in d.files <==> p in d0.files) && (p in d.files ==> d.files[p] == d0.files[p])
  }

  /** At every point a file that is no target of the commit is as it was before. */
  lemma BystandersKept(c: Cascade, overwrites: bool, d: Disk, pt: Point, p: Path)
    requires Shows(c, overwrites, d, pt) && !Under(p, c.dir) && p !in Targets(c)
    ensures SameAt(c.start, d, p)
  {
    assert forall i | 0 <= i < |c.pending| :: c.pending[i].finalPath in Targets(c);
    InstalledOther(c, Count(c, pt), p);
    assert p in d.files <==> p in View(c, d);
    assert p in c.start.files <==> p in View(c, c.start);
  }

  /** After a commit each final path holds the staged bytes of the last artifact for it. */
  lemma CommittedContents(c: Cascade, overwrites: bool, d: Disk, i: nat)
    requires Shows(c, overwrites, d, Swapped) && i < |c.pending|
    requires LastTo(c, |c.pending|, c.pending[i].finalPath, i)
    ensures c.pending[i].finalPath in d.files
    ensures d.files[c.pending[i].finalPath] == c.start.files[Src(c.dir, c.pending[i])]
  {
    InstalledLast(c, |c.pending|, i);
    assert c.pending[i].finalPath in View(c, d);
  }

  /** The manifest of a disk at a point: the old one, the new one, or at one point neither. */
  lemma ManifestAt(c: Cascade, overwrites: bool, d: Disk, pt: Point)
    requires Shows(c, overwrites, d, pt) && c.m in c.start.files
    ensures c.m !in d.files <==> pt == ManifestGap
    ensures c.m in d.files ==> d.files[c.m] == if pt == Swapped then c.text else c.start.files[c.m]
  {
    assert c.m in d.files <==> c.m in View(c, d);
    match pt
    case Artifacts(k) => InstalledKeys(c, k);
    case ArtifactGap(k) => InstalledKeys(c, k);
    case ManifestGap => InstalledKeys(c, |c.pending|);
    case Swapped => InstalledKeys(c, |c.pending|);
  }

  ghost predicate AllShow(c: Cascade, overwrites: bool, trace: seq<Disk>, n: nat) {
    forall i | n <= i < |trace| :: ShowsSome(c, overwrites, trace[i])
  }

  /** From `n` on some state lacks the file. */
  ghost predicate Vanishes(trace: seq<Disk>, n: nat, p: Path) {
    exists i :: n <= i < |trace| && p !in trace[i].files
  }

  /** A commit that replaces a manifest and reaches the end passes through a state with no manifest at all if
      and only if `rename` does not overwrite. */
  lemma ManifestVanishesIff(c: Cascade, overwrites: bool, trace: seq<Disk>, n: nat)
    requires WellFormed(c) && c.m in c.start.files && AllShow(c, overwrites, trace, n)
    requires !overwrites ==> Visits(c, overwrites, trace, n, ManifestGap)
    ensures Vanishes(trace, n, c.m) <==> !overwrites
  {
    forall i | n <= i < |trace| ensures c.m !in trace[i].files <==> Shows(c, overwrites, trace[i], ManifestGap) {
      assert ShowsSome(c, overwrites, trace[i]);
      var pt :| Shows(c, overwrites, trace[i], pt);
      ManifestAt(c, overwrites, trace[i], pt);
      if Shows(c, overwrites, trace[i], ManifestGap) { ManifestAt(c, overwrites, trace[i], ManifestGap); }
    }
  }

  /** A final path that was there stays in every view. */
  lemma {:induction false} InstalledKeeps(c: Cascade, k: nat, p: Path)
    requires WellFormed(c) && k <= |c.pending| && p in View(c, c.start)
    ensures p in Installed(c, k)
  {
    if k > 0 {
      InstalledKeeps(c, k - 1, p);
    }
  }

  lemma FinalInView(c: Cascade, d: Disk, i: nat)
    requires WellFormed(c) && i < |c.pending|
    ensures c.pending[i].finalPath in d.files <==> c.pending[i].finalPath in View(c, d)
  {
  }

  /** A commit over an existing artifact passes through a state without it if and only if `rename` does not
      overwrite. */
  lemma ArtifactVanishesIff(c: Cascade, overwrites: bool, trace: seq<Disk>, n: nat, i: nat)
    requires WellFormed(c) && AllShow(c, overwrites, trace, n) && VisitsUpTo(c, overwrites, trace, n, |c.pending|)
    requires i < |c.pending| && c.pending[i].finalPath in c.start.files
    ensures Vanishes(trace, n, c.pending[i].finalPath) <==> !overwrites
  {
    var p := c.pending[i].finalPath;
    FinalInView(c, c.start, i);
    if overwrites {
      forall j | n <= j < |trace| ensures p in trace[j].files {
        assert ShowsSome(c, overwrites, trace[j]);
        var pt :| Shows(c, overwrites, trace[j], pt);
        InstalledKeeps(c, Count(c, pt), p);
        FinalInView(c, trace[j], i);
      }
    } else {
      InstalledKeeps(c, i, p);
      assert Visits(c, overwrites, trace, n, ArtifactGap(i));
      var j :| n <= j < |trace| && Shows(c, overwrites, trace[j], ArtifactGap(i));
      FinalInView(c, trace[j], i);
    }
  }

  // ----- All or nothing -----

  /** What a view shows at the final paths. */
  ghost function AtFinals(c: Cascade, view: map<Path, seq<byte>>): map<Path, seq<byte>> {
    map p | p in view && exists i :: 0 <= i < |c.pending| && c.pending[i].finalPath == p :: view[p]
  }

  ghost function FinalsAt(c: Cascade, k: nat): map<Path, seq<byte>>
    requires WellFormed(c) && k <= |c.pending|
  {
    AtFinals(c, Installed(c, k))
  }

  /** None of the artifacts installed, or all of them. */
  ghost predicate OldOrNew(c: Cascade, finals: map<Path, seq<byte>>)
    requires WellFormed(c)
  {
    finals == FinalsAt(c, 0) || finals == FinalsAt(c, |c.pending|)
  }

  /** From `n` on every state shows the final paths as they were, or as the commit leaves them. */
  ghost predicate AllOrNothing(c: Cascade, trace: seq<Disk>, n: nat)
    requires WellFormed(c)
  {
    forall i | n <= i < |trace| :: OldOrNew(c, AtFinals(c, View(c, trace[i])))
  }

  /** No prefix of the artifacts, and no gap, shows anything else. */
  ghost predicate Steady(c: Cascade, overwrites: bool)
    requires WellFormed(c)
  {
    && (forall k: nat | k <= |c.pending| :: OldOrNew(c, FinalsAt(c, k)))
    && (forall k: nat | Possible(c, overwrites, ArtifactGap(k)) ::
          OldOrNew(c, FinalsAt(c, k) - {c.pending[k].finalPath}))
  }

  ghost function FinalsOf(c: Cascade, overwrites: bool, pt: Point): map<Path, seq<byte>>
    requires WellFormed(c) && Possible(c, overwrites, pt)
  {
    if pt.ArtifactGap? then FinalsAt(c, pt.k) - {c.pending[pt.k].finalPath} else FinalsAt(c, Count(c, pt))
  }

  lemma PointAtFinals(c: Cascade, overwrites: bool, d: Disk, pt: Point)
    requires Shows(c, overwrites, d, pt)
    ensures AtFinals(c, View(c, d)) == FinalsOf(c, overwrites, pt)
  {
  }

  /** Whatever the final paths, shared or not: a successful commit is all-or-nothing exactly when it is steady. */
  lemma AllOrNothingIffSteady(c: Cascade, overwrites: bool, trace: seq<Disk>, n: nat)
    requires WellFormed(c) && AllShow(c, overwrites, trace, n) && VisitsUpTo(c, overwrites, trace, n, |c.pending|)
    ensures AllOrNothing(c, trace, n) <==> Steady(c, overwrites)
  {
    if AllOrNothing(c, trace, n) {
      forall k: nat | k <= |c.pending| ensures OldOrNew(c, FinalsAt(c, k)) {
        if k > 0 { VisitedIsOldOrNew(c, overwrites, trace, n, Artifacts(k)); }
      }
      forall k: nat | Possible(c, overwrites, ArtifactGap(k))
        ensures OldOrNew(c, FinalsAt(c, k) - {c.pending[k].finalPath})
      {
        VisitedIsOldOrNew(c, overwrites, trace, n, ArtifactGap(k));
      }
    }
    if Steady(c, overwrites) {
      forall i | n <= i < |trace| ensures OldOrNew(c, AtFinals(c, View(c, trace[i]))) {
        assert ShowsSome(c, overwrites, trace[i]);
        var pt :| Shows(c, overwrites, trace[i], pt);
        PointAtFinals(c, overwrites, trace[i], pt);
      }
    }
  }

  lemma VisitedIsOldOrNew(c: Cascade, overwrites: bool, trace: seq<Disk>, n: nat, pt: Point)
    requires WellFormed(c) && AllOrNothing(c, trace, n) && Visits(c, overwrites, trace, n, pt)
    ensures Possible(c, overwrites, pt) && OldOrNew(c, FinalsOf(c, overwrites, pt))
  {
    var i :| n <= i < |trace| && Shows(c, overwrites, trace[i], pt);
    PointAtFinals(c, overwrites, trace[i], pt);
  }

  ghost predicate DistinctFinals(c: Cascade) {
    forall i, j | 0 <= i < j < |c.pending| :: c.pending[i].finalPath != c.pending[j].finalPath
  }

  /** Installing this artifact makes a difference: its target is absent, or holds other bytes. */
  ghost predicate Changes(c: Cascade, i: nat)
    requires WellFormed(c) && i < |c.pending|
  {
    var p := c.pending[i].finalPath;
    p !in c.start.files || c.start.files[p] != c.start.files[Src(c.dir, c.pending[i])]
  }

  ghost predicate AtMostOneChanges(c: Cascade)
    requires WellFormed(c)
  {
    forall i, j | 0 <= i < j < |c.pending| :: !(Changes(c, i) && Changes(c, j))
  }

  /** No target is there, or `rename` overwrites it. */
  ghost predicate NothingRemoved(c: Cascade, overwrites: bool) {
    overwrites || forall i | 0 <= i < |c.pending| :: c.pending[i].finalPath !in c.start.files
  }

  /** What the view with `k` artifacts installed shows at the final path of artifact `i`. */
  lemma DistinctAt(c: Cascade, k: nat, i: nat)
    requires WellFormed(c) && DistinctFinals(c) && k <= |c.pending| && i < |c.pending|
    ensures var p := c.pending[i].finalPath;
      if i < k then p in FinalsAt(c, k) && FinalsAt(c, k)[p] == c.start.files[Src(c.dir, c.pending[i])]
      else (p in FinalsAt(c, k) <==> p in c.start.files)
           && (p in c.start.files ==> FinalsAt(c, k)[p] == c.start.files[p])
  {
    var p := c.pending[i].finalPath;
    if i < k {
      InstalledLast(c, k, i);
    } else {
      InstalledOther(c, k, p);
      FinalInView(c, c.start, i);
    }
  }

  /** If everything from `lo` up to `hi` makes no difference, the two views agree at the final paths. */
  lemma NoChangeBetween(c: Cascade, lo: nat, hi: nat)
    requires WellFormed(c) && DistinctFinals(c) && lo <= hi <= |c.pending|
    requires forall i | lo <= i < hi :: !Changes(c, i)
    ensures FinalsAt(c, lo) == FinalsAt(c, hi)
  {
    var a, b := FinalsAt(c, lo), FinalsAt(c, hi);
    forall i | 0 <= i < |c.pending|
      ensures var p := c.pending[i].finalPath; (p in a <==> p in b) && (p in a ==> a[p] == b[p])
    {
      DistinctAt(c, lo, i);
      DistinctAt(c, hi, i);
      assert lo <= i < hi ==> !Changes(c, i);
    }
  }

  lemma ChangeShows(c: Cascade, lo: nat, i: nat, hi: nat)
    requires WellFormed(c) && DistinctFinals(c) && lo <= i < hi <= |c.pending| && Changes(c, i)
    ensures FinalsAt(c, lo) != FinalsAt(c, hi)
  {
    DistinctAt(c, lo, i);
    DistinctAt(c, hi, i);
  }

  /** The condition in terms of the start disk, for artifacts with paths of their own. */
  lemma SteadyIff(c: Cascade, overwrites: bool)
    requires WellFormed(c) && DistinctFinals(c)
    ensures Steady(c, overwrites) <==> NothingRemoved(c, overwrites) && AtMostOneChanges(c)
  {
    if Steady(c, overwrites) {
      SteadyRemovesNothing(c, overwrites);
      SteadyChangesOne(c, overwrites);
    }
    if NothingRemoved(c, overwrites) && AtMostOneChanges(c) {
      OneChangeIsSteady(c, overwrites);
    }
  }

  lemma SteadyRemovesNothing(c: Cascade, overwrites: bool)
    requires WellFormed(c) && DistinctFinals(c) && Steady(c, overwrites)
    ensures NothingRemoved(c, overwrites)
  {
    forall i: nat | !overwrites && i < |c.pending| ensures c.pending[i].finalPath !in c.start.files {
      if c.pending[i].finalPath in c.start.files {
        GapShows(c, i);
      }
    }
  }

  /** Where a target is removed on the way, the gap shows neither the old artifacts nor the new. */
  lemma GapShows(c: Cascade, i: nat)
    requires WellFormed(c) && DistinctFinals(c) && i < |c.pending| && c.pending[i].finalPath in c.start.files
    ensures Possible(c, false, ArtifactGap(i)) && !OldOrNew(c, FinalsAt(c, i) - {c.pending[i].finalPath})
  {
    DistinctAt(c, i, i);
    DistinctAt(c, 0, i);
    DistinctAt(c, |c.pending|, i);
  }

  lemma SteadyChangesOne(c: Cascade, overwrites: bool)
    requires WellFormed(c) && DistinctFinals(c) && Steady(c, overwrites)
    ensures AtMostOneChanges(c)
  {
    forall i, j | 0 <= i < j < |c.pending| ensures !(Changes(c, i) && Changes(c, j)) {
      assert OldOrNew(c, FinalsAt(c, i + 1));
      if Changes(c, i) && Changes(c, j) {
        ChangeShows(c, 0, i, i + 1);
        ChangeShows(c, i + 1, j, |c.pending|);
      }
    }
  }

  lemma OneChangeIsSteady(c: Cascade, overwrites: bool)
    requires WellFormed(c) && DistinctFinals(c) && NothingRemoved(c, overwrites) && AtMostOneChanges(c)
    ensures Steady(c, overwrites)
  {
    forall k: nat | k <= |c.pending| ensures OldOrNew(c, FinalsAt(c, k)) {
      if i :| 0 <= i < k && Changes(c, i) {
        NoChangeBetween(c, k, |c.pending|);
      } else {
        NoChangeBetween(c, 0, k);
      }
    }
    forall k: nat | k < |c.pending| ensures !Possible(c, overwrites, ArtifactGap(k)) {
      DistinctAt(c, k, k);
    }
  }

  /** The artifacts themselves are not all-or-nothing: with paths of their own, a successful commit is so if and
      only if it removes no target on the way and at most one artifact makes a difference. */
  lemma AllOrNothingIff(c: Cascade, overwrites: bool, trace: seq<Disk>, n: nat)
    requires WellFormed(c) && AllShow(c, overwrites, trace, n) && VisitsUpTo(c, overwrites, trace, n, |c.pending|)
    requires DistinctFinals(c)
    ensures AllOrNothing(c, trace, n) <==> NothingRemoved(c, overwrites) && AtMostOneChanges(c)
  {
    AllOrNothingIffSteady(c, overwrites, trace, n);
    SteadyIff(c, overwrites);
  }

  /** In particular, a commit of new artifacts only, if and only if there is at most one. */
  lemma FreshIsAllOrNothingIff(c: Cascade, overwrites: bool, trace: seq<Disk>, n: nat)
    requires WellFormed(c) && AllShow(c, overwrites, trace, n) && VisitsUpTo(c, overwrites, trace, n, |c.pending|)
    requires DistinctFinals(c) && forall i | 0 <= i < |c.pending| :: c.pending[i].finalPath !in c.start.files
    ensures AllOrNothing(c, trace, n) <==> |c.pending| <= 1
  {
    AllOrNothingIff(c, overwrites, trace, n);
    if |c.pending| > 1 {
      assert Changes(c, 0) && Changes(c, 1);
    }
  }

  /** The file is there with these bytes. */
  predicate HasBytes(d: Disk, p: Path, bytes: seq<byte>) {
    p in d.files && d.files[p] == bytes
  }

  // ----- The whole commit -----

  /** When a successful commit loses sight of the manifest, of an artifact, or of its being all-or-nothing. */
  ghost predicate Exact(c: Cascade, overwrites: bool, trace: seq<Disk>, n: nat)
    requires WellFormed(c)
  {
    && (c.m in c.start.files ==> (Vanishes(trace, n, c.m) <==> !overwrites))
    && (forall i | 0 <= i < |c.pending| && c.pending[i].finalPath in c.start.files ::
          Vanishes(trace, n, c.pending[i].finalPath) <==> !overwrites)
    && (AllOrNothing(c, trace, n) <==> Steady(c, overwrites))
    && (DistinctFinals(c) ==> (AllOrNothing(c, trace, n) <==> NothingRemoved(c, overwrites) && AtMostOneChanges(c)))
  }

  lemma CommitIsExact(c: Cascade, overwrites: bool, trace: seq<Disk>, n: nat)
    requires WellFormed(c) && AllShow(c, overwrites, trace, n) && VisitsUpTo(c, overwrites, trace, n, |c.pending|)
    requires !overwrites && c.m in c.start.files ==> Visits(c, overwrites, trace, n, ManifestGap)
    ensures Exact(c, overwrites, trace, n)
  {
    if c.m in c.start.files { ManifestVanishesIff(c, overwrites, trace, n); }
    forall i | 0 <= i < |c.pending| && c.pending[i].finalPath in c.start.files
      ensures Vanishes(trace, n, c.pending[i].finalPath) <==> !overwrites
    {
      ArtifactVanishesIff(c, overwrites, trace, n, i);
    }
    AllOrNothingIffSteady(c, overwrites, trace, n);
    if DistinctFinals(c) { AllOrNothingIff(c, overwrites, trace, n); }
  }

  /** The steps after the installation, from `first` on, keep what it visited. */
  lemma CommitFinishes(c: Cascade, overwrites: bool, first: seq<Disk>, before: seq<Disk>, trace: seq<Disk>, n: nat)
    requires WellFormed(c) && first <= before <= trace && n <= |first| && AllShow(c, overwrites, trace, n)
    requires VisitsUpTo(c, overwrites, first, n, |c.pending|)
    requires !overwrites && c.m in c.start.files ==> Visits(c, overwrites, before, |first|, ManifestGap)
    ensures VisitsUpTo(c, overwrites, trace, n, |c.pending|) && Exact(c, overwrites, trace, n)
  {
    VisitsUpToMore(c, overwrites, first, trace, n, |c.pending|);
    if !overwrites && c.m in c.start.files {
      VisitsMore(c, overwrites, before, trace, |first|, ManifestGap);
      VisitsEarlier(c, overwrites, trace, |first|, n, ManifestGap);
    }
    CommitIsExact(c, overwrites, trace, n);
  }

  /** `StagingHandle::commit`, the staging directory being dropped at the end on either path. At every
      point at which the process may die, the files outside the staging directory are exactly those of
      one point of the commit; success ends at `Swapped`, failure at another. A successful commit shows a
      state without a manifest, or with some of its artifacts only, exactly under the stated conditions. */
  method CommitStaged(fs: FileSystem, ghost c: Cascade, dir: Path, pending: seq<PendingArtifact>, m: Path,
                      text: seq<byte>, artifactCount: nat)
    returns (r: Result<(), CommitError>)
    requires fs.Valid() && WellFormed(c) && c == Cascade(fs.disk, dir, pending, m, text)
    modifies fs
    ensures fs.Valid() && old(fs.trace) <= fs.trace
    ensures forall i | |old(fs.trace)| <= i < |fs.trace| :: ShowsSome(c, fs.overwrites, fs.trace[i])
    ensures r.Ok? ==> Shows(c, fs.overwrites, fs.disk, Swapped) && StagedManifest(m) !in fs.disk.files
    ensures r.Ok? ==> VisitsUpTo(c, fs.overwrites, fs.trace, |old(fs.trace)|, |pending|)
    ensures r.Ok? ==> Exact(c, fs.overwrites, fs.trace, |old(fs.trace)|)
    ensures r.Err? ==> Unswapped(c, fs.overwrites, fs.disk)
    ensures fs.reliable && Unobstructed(c) ==> (r.Ok? <==> !SizeIsAnomalous(artifactCount, |text|))
  {
    ghost var n0 := |fs.trace|;
    r := InstallAll(fs, c, dir, pending);
    forall i | n0 <= i < |fs.trace| ensures ShowsSome(c, fs.overwrites, fs.trace[i]) {
      ArtifactsAreSome(c, fs.overwrites, fs.trace[i]);
    }
    ghost var first := fs.trace;
    if r.Ok? {
      r := SwapManifest(fs, c, m, text, artifactCount);
    }
    if r.Err? { ArtifactsAreSome(c, fs.overwrites, fs.disk); }
    ghost var before := fs.trace;
    DropStaging(fs, c, dir);
    if r.Ok? { CommitFinishes(c, fs.overwrites, first, before, fs.trace, n0); }
  }

  /** A changed artifact, a new one, and a new manifest over an old one. */
  function Example(): Cascade {
    Cascade(Disk(map[[[1], [1]] := [7], [[1], [2]] := [8], [[2]] := [5], [[4]] := []], {[[1]]}), [[1]],
            [PendingArtifact([[2]], [1]), PendingArtifact([[3]], [2])], [[4]], [9])
  }

  lemma ExampleIsWellFormed()
    ensures WellFormed(Example())
  {
    var c := Example();
    assert Src(c.dir, c.pending[0]) == [[1], [1]] && Src(c.dir, c.pending[1]) == [[1], [2]];
    assert Apart(c.dir, c.pending, c.m) by {
      assert |StagedManifest(c.m)[0]| == 5;
    }
  }

  lemma ExampleIsUnobstructed()
    ensures Unobstructed(Example())
  {
    var c := Example();
    assert |StagedManifest(c.m)[0]| == 5;
    assert forall p | p in Targets(c) :: |p| == 1;
  }

  lemma ExampleTargets()
    ensures WellFormed(Example()) && DistinctFinals(Example()) && !AtMostOneChanges(Example())
    ensures var c := Example(); c.start.files[Src(c.dir, c.pending[0])] == [7]
  {
    var c := Example();
    ExampleIsWellFormed();
    assert c.pending[0].finalPath == [[2]] && c.pending[1].finalPath == [[3]];
    assert Src(c.dir, c.pending[0]) == [[1], [1]];
    assert [[2]] in c.start.files && [[3]] !in c.start.files;
    assert Changes(c, 0) && Changes(c, 1);
  }

  lemma MixedState(overwrites: bool, trace: seq<Disk>)
    requires WellFormed(Example()) && VisitsUpTo(Example(), overwrites, trace, 1, 2)
    ensures exists i :: 0 <= i < |trace| && HasBytes(trace[i], [[2]], [7]) && [[3]] !in trace[i].files
  {
    var c := Example();
    ExampleTargets();
    assert Visits(c, overwrites, trace, 1, Artifacts(1));
    var i :| 1 <= i < |trace| && Shows(c, overwrites, trace[i], Artifacts(1));
    assert c.pending[0].finalPath == [[2]] && c.pending[1].finalPath == [[3]];
    DistinctAt(c, 1, 0);
    DistinctAt(c, 1, 1);
    FinalInView(c, trace[i], 0);
    FinalInView(c, trace[i], 1);
    assert HasBytes(trace[i], [[2]], [7]);
  }

  /** A commit that succeeds with just one new target, yet one of its states holds the changed artifact without the
      new one. Where `rename` does not overwrite, one state has neither the old nor the new manifest, and one has
      lost the artifact that was there. */
  method WitnessRun(overwrites: bool) returns (fs: FileSystem)
    ensures fs.Valid() && fs.trace[0] == Example().start && Shows(Example(), overwrites, fs.disk, Swapped)
    ensures exists i :: 0 <= i < |fs.trace| && HasBytes(fs.trace[i], [[2]], [7]) && [[3]] !in fs.trace[i].files
    ensures !AllOrNothing(Example(), fs.trace, 1)
    ensures Vanishes(fs.trace, 1, [[4]]) <==> !overwrites
    ensures Vanishes(fs.trace, 1, [[2]]) <==> !overwrites
  {
    var c := Example();
    ExampleIsWellFormed();
    ExampleIsUnobstructed();
    ExampleTargets();
    fs := new FileSystem(c.start, overwrites, true);
    var r := CommitStaged(fs, c, c.dir, c.pending, c.m, c.text, 2);
    MixedState(overwrites, fs.trace);
  }
}
