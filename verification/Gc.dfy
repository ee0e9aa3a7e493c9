/** Garbage collection of cached artifacts (`edda-cache/src/gc.rs`, `Gc::run`). */
module Gc {
  import opened Bytes
  import opened Manifests
  import opened Disks

  // ----- Names and paths -----

  predicate IsHexLower(b: byte) {
    0x30 <= b <= 0x39 || 0x61 <= b <= 0x66
  }

  /** Four lowercase hex characters. */
  predicate IsShardName(name: Str) {
    |name| == 4 && forall i | 0 <= i < 4 :: IsHexLower(name[i])
  }

  function CodegenRoot(root: Path): Path {
    root + [Ascii(".edda"), Ascii("cache"), Ascii("codegen")]
  }

  function Marker(root: Path): Path {
    CodegenRoot(root) + [Ascii(".gc-in-progress")]
  }

  predicate IsShardDir(root: Path, p: Path) {
    ChildOf(p, CodegenRoot(root)) && IsShardName(p[|p| - 1])
  }

  // ----- What a pass is about -----

  /** In the collected tier and not live. */
  predicate IsDead(e: ArtifactEntry, tier: Tier, live: set<Hash>) {
    e.tier == tier && e.hash !in live
  }

  ghost function DeadPaths(root: Path, artifacts: seq<ArtifactEntry>, tier: Tier, live: set<Hash>): set<Path> {
    set i | 0 <= i < |artifacts| && IsDead(artifacts[i], tier, live) :: root + artifacts[i].path
  }

  datatype Pass = Pass(root: Path, dead: set<Path>, tier: Tier)

  ghost function Swept(d: Disk, pass: Pass): Disk {
    Disk(d.files - (pass.dead + {Marker(pass.root)}), d.dirs + Prefixes(CodegenRoot(pass.root)))
  }

  ghost function EmptyShards(d: Disk, root: Path): set<Path> {
    set p | p in d.dirs && IsShardDir(root, p) && IsEmptyDir(d, p)
  }

  ghost function Doomed(d: Disk, pass: Pass): set<Path> {
    if pass.tier.Cache? then EmptyShards(Swept(d, pass), pass.root) else {}
  }

  /** The disk an uninterrupted pass leaves behind. */
  ghost function Final(d: Disk, pass: Pass): Disk {
    Swept(d, pass).(dirs := Swept(d, pass).dirs - Doomed(d, pass))
  }

  // ----- States a pass may be interrupted in -----

  /** Files that are neither dead nor the marker are untouched, dead ones are untouched or gone, and
      of the directories at most doomed shards are missing. */
  ghost predicate Resumable(d0: Disk, d: Disk, pass: Pass) {
    var scope := pass.dead + {Marker(pass.root)};
    && d.files - scope == d0.files - scope
    && (forall p | p in d.files && p != Marker(pass.root) :: p in d0.files && d.files[p] == d0.files[p])
    && d.dirs <= Swept(d0, pass).dirs
    && Swept(d0, pass).dirs - Doomed(d0, pass) <= Swept(d, pass).dirs
  }

  lemma ShardIsNoChildOfShard(root: Path, p: Path, q: Path)
    requires IsShardDir(root, p) && IsShardDir(root, q)
    ensures !ChildOf(q, p)
  {
  }

  /** Removing empty shards does not change which of the others are empty. */
  lemma DoomedAfter(d0: Disk, d: Disk, pass: Pass)
    requires Resumable(d0, d, pass)
    ensures Doomed(d, pass) == Doomed(d0, pass) * Swept(d, pass).dirs
  {
    var s0, s := Swept(d0, pass), Swept(d, pass);
    assert s.files == s0.files && s.dirs <= s0.dirs;
    if pass.tier.Cache? {
      forall p | p in s.dirs && IsShardDir(pass.root, p) ensures IsEmptyDir(s, p) <==> IsEmptyDir(s0, p) {
        forall q | q in s0.dirs && q !in s.dirs ensures !ChildOf(q, p) {
          assert q in Doomed(d0, pass);
          ShardIsNoChildOfShard(pass.root, p, q);
        }
      }
    }
  }

  /** Resumption: starting over from any interrupted state leads to the same disk. */
  lemma ResumeReachesSameDisk(d0: Disk, d: Disk, pass: Pass)
    requires Resumable(d0, d, pass)
    ensures Final(d, pass) == Final(d0, pass)
  {
    DoomedAfter(d0, d, pass);
    assert Final(d, pass).dirs == Final(d0, pass).dirs;
  }

  /** And the states an interrupted resumption stops in are again interrupted states of the first
      pass, so this covers any number of crashes. */
  lemma ResumableComposes(d0: Disk, d1: Disk, d2: Disk, pass: Pass)
    requires Resumable(d0, d1, pass) && Resumable(d1, d2, pass)
    ensures Resumable(d0, d2, pass)
  {
    DoomedAfter(d0, d1, pass);
  }

  lemma FinalIsResumable(d0: Disk, pass: Pass)
    ensures Resumable(d0, Final(d0, pass), pass)
  {
    var d, scope := Final(d0, pass), pass.dead + {Marker(pass.root)};
    assert d.files - scope == d0.files - scope;
  }

  // ----- The pass -----

  datatype GcError = IoFailed(at: Path)

  datatype GcSummary = GcSummary(artifactsRemoved: nat, bytesRecovered: nat, dryRun: bool)

  ghost function Marked(d: Disk, pass: Pass): Disk {
    Disk(d.files[Marker(pass.root) := []], d.dirs + Prefixes(CodegenRoot(pass.root)))
  }

  /** Everything before the marker is in place: only the marker and its directories may differ. */
  ghost predicate Marking(d0: Disk, d: Disk, pass: Pass) {
    && d.files - {Marker(pass.root)} == d0.files - {Marker(pass.root)}
    && d0.dirs <= d.dirs <= d0.dirs + Prefixes(CodegenRoot(pass.root))
  }

  lemma MarkingIsResumable(d0: Disk, d: Disk, pass: Pass)
    requires Marking(d0, d, pass)
    ensures Resumable(d0, d, pass)
  {
    var marker, scope := Marker(pass.root), pass.dead + {Marker(pass.root)};
    assert d.files - scope == (d.files - {marker}) - scope;
    assert d0.files - scope == (d0.files - {marker}) - scope;
    forall p | p in d.files && p != marker ensures p in d0.files && d.files[p] == d0.files[p] {
      assert p in d.files - {marker};
      assert (d.files - {marker})[p] == (d0.files - {marker})[p];
    }
  }

  lemma PrunedIsResumable(d0: Disk, d: Disk, pass: Pass)
    requires d.dirs == Marked(d0, pass).dirs && PrunedFrom(Marked(d0, pass), d, pass.dead)
    ensures Resumable(d0, d, pass)
  {
    var marker, scope, d1 := Marker(pass.root), pass.dead + {Marker(pass.root)}, Marked(d0, pass);
    assert d.files - scope == (d.files - pass.dead) - {marker};
    assert d0.files - scope == (d1.files - pass.dead) - {marker};
  }

  /** No file stands where a directory is needed, and no directory where a file is. */
  ghost predicate Clear(d: Disk, pass: Pass) {
    && Prefixes(CodegenRoot(pass.root)) !! d.files.Keys
    && Marker(pass.root) !in d.dirs
    && pass.dead !! d.dirs + Prefixes(CodegenRoot(pass.root))
  }

  lemma MarkerIsNoPrefix(root: Path)
    ensures Marker(root) !in Prefixes(CodegenRoot(root))
  {
    forall i | 0 < i <= |CodegenRoot(root)| ensures |CodegenRoot(root)[..i]| < |Marker(root)| {
    }
  }

  /** Create the cache directory and drop the marker file. */
  method PlaceMarker(fs: FileSystem, root: Path, ghost pass: Pass) returns (r: Result<(), GcError>)
    requires fs.Valid() && pass.root == root
    modifies fs
    ensures fs.Valid() && old(fs.trace) <= fs.trace
    ensures forall i | |old(fs.trace)| <= i < |fs.trace| :: Marking(old(fs.disk), fs.trace[i], pass)
    ensures r.Ok? ==> fs.disk == Marked(old(fs.disk), pass)
    ensures fs.reliable && Clear(old(fs.disk), pass) ==> r.Ok?
  {
    var codegen, marker := CodegenRoot(root), Marker(root);
    var io := fs.CreateDirAll(codegen);
    if !io.Done? { return Err(IoFailed(codegen)); }
    MarkerIsNoPrefix(root);
    ghost var n, mid := |fs.trace|, fs.disk;
    io := fs.Write(marker, []);
    forall i | |old(fs.trace)| <= i < |fs.trace| ensures Marking(old(fs.disk), fs.trace[i], pass) {
      if i >= n { assert OnlyFile(mid, fs.trace[i], marker); }
    }
    if !io.Done? { return Err(IoFailed(marker)); }
    r := Ok(());
  }

  /** The summary a dry run over `artifacts` reports, computed on the disk before it. */
  ghost function Tally(d: Disk, root: Path, artifacts: seq<ArtifactEntry>, tier: Tier, live: set<Hash>, dryRun: bool)
    : GcSummary
  {
    if artifacts == [] then GcSummary(0, 0, dryRun)
    else
      var e := artifacts[|artifacts| - 1];
      Counted(Tally(d, root, artifacts[..|artifacts| - 1], tier, live, dryRun), IsDead(e, tier, live),
              SizeAt(d, root + e.path))
  }

  function Counted(t: GcSummary, dead: bool, size: nat): GcSummary {
    if dead then GcSummary(t.artifactsRemoved + 1, SaturatingAdd(t.bytesRecovered, size), t.dryRun) else t
  }

  function SizeAt(d: Disk, p: Path): nat {
    if p in d.files then |d.files[p]| else 0
  }

  const U64_MAX: nat := 0xffff_ffff_ffff_ffff

  function SaturatingAdd(a: nat, b: nat): nat {
    if a + b <= U64_MAX then a + b else U64_MAX
  }

  ghost predicate DistinctPaths(artifacts: seq<ArtifactEntry>) {
    forall i, j | 0 <= i < j < |artifacts| :: artifacts[i].path != artifacts[j].path
  }

  lemma DeadPathsStep(root: Path, artifacts: seq<ArtifactEntry>, tier: Tier, live: set<Hash>, k: nat)
    requires k < |artifacts|
    ensures DeadPaths(root, artifacts[..k + 1], tier, live)
         == DeadPaths(root, artifacts[..k], tier, live)
            + (if IsDead(artifacts[k], tier, live) then {root + artifacts[k].path} else {})
  {
    var a, b := artifacts[..k], artifacts[..k + 1];
    forall p | p in DeadPaths(root, b, tier, live)
      ensures p in DeadPaths(root, a, tier, live) || (IsDead(artifacts[k], tier, live) && p == root + artifacts[k].path)
    {
      var i :| 0 <= i < |b| && IsDead(b[i], tier, live) && root + b[i].path == p;
      if i < k { assert a[i] == b[i]; }
    }
    forall p | p in DeadPaths(root, a, tier, live) ensures p in DeadPaths(root, b, tier, live) {
      var i :| 0 <= i < |a| && IsDead(a[i], tier, live) && root + a[i].path == p;
      assert b[i] == a[i];
    }
    if IsDead(artifacts[k], tier, live) { assert b[k] == artifacts[k]; }
  }

  lemma DeadPathsOfPrefix(root: Path, artifacts: seq<ArtifactEntry>, tier: Tier, live: set<Hash>, k: nat)
    requires k <= |artifacts|
    ensures DeadPaths(root, artifacts[..k], tier, live) <= DeadPaths(root, artifacts, tier, live)
  {
    forall p | p in DeadPaths(root, artifacts[..k], tier, live) ensures p in DeadPaths(root, artifacts, tier, live) {
      var i :| 0 <= i < k && IsDead(artifacts[..k][i], tier, live) && root + artifacts[..k][i].path == p;
      assert artifacts[i] == artifacts[..k][i];
    }
  }

  /** With distinct paths an entry's own file is not yet gone when its turn comes. */
  lemma NotYetRemoved(root: Path, artifacts: seq<ArtifactEntry>, tier: Tier, live: set<Hash>, k: nat)
    requires k < |artifacts| && DistinctPaths(artifacts)
    ensures root + artifacts[k].path !in DeadPaths(root, artifacts[..k], tier, live)
  {
    forall i | 0 <= i < k ensures root + artifacts[..k][i].path != root + artifacts[k].path {
      JoinIsInjective(root, artifacts[i].path, artifacts[k].path);
    }
  }

  ghost predicate PrunedFrom(d0: Disk, d: Disk, dead: set<Path>) {
    && d.dirs == d0.dirs
    && d.files - dead == d0.files - dead
    && forall p | p in d.files :: p in d0.files && d.files[p] == d0.files[p]
  }

  ghost function Pruned(d0: Disk, dryRun: bool, dead: set<Path>): Disk {
    if dryRun then d0 else d0.(files := d0.files - dead)
  }

  lemma PrunedIsPrunedFrom(d0: Disk, dryRun: bool, gone: set<Path>, dead: set<Path>)
    requires gone <= dead
    ensures PrunedFrom(d0, Pruned(d0, dryRun, gone), dead)
  {
    assert (d0.files - gone) - dead == d0.files - dead;
  }

  /** What one turn of the removal loop has to establish. */
  lemma PruneStep(d0: Disk, root: Path, artifacts: seq<ArtifactEntry>, tier: Tier, live: set<Hash>, dryRun: bool,
                  k: nat)
    requires k < |artifacts|
    ensures var dead := DeadPaths(root, artifacts, tier, live);
            var now := Pruned(d0, dryRun, DeadPaths(root, artifacts[..k], tier, live));
            var next := Pruned(d0, dryRun, DeadPaths(root, artifacts[..k + 1], tier, live));
            && PrunedFrom(d0, now, dead) && PrunedFrom(d0, next, dead)
            && next == if IsDead(artifacts[k], tier, live) && !dryRun
                       then now.(files := now.files - {root + artifacts[k].path}) else now
  {
    DeadPathsStep(root, artifacts, tier, live, k);
    DeadPathsOfPrefix(root, artifacts, tier, live, k);
    DeadPathsOfPrefix(root, artifacts, tier, live, k + 1);
    var dead := DeadPaths(root, artifacts, tier, live);
    PrunedIsPrunedFrom(d0, dryRun, DeadPaths(root, artifacts[..k], tier, live), dead);
    PrunedIsPrunedFrom(d0, dryRun, DeadPaths(root, artifacts[..k + 1], tier, live), dead);
  }

  lemma TallyStep(d0: Disk, root: Path, artifacts: seq<ArtifactEntry>, tier: Tier, live: set<Hash>, dryRun: bool,
                  k: nat)
    requires k < |artifacts| && (dryRun || DistinctPaths(artifacts))
    ensures var now := Pruned(d0, dryRun, DeadPaths(root, artifacts[..k], tier, live));
            Tally(d0, root, artifacts[..k + 1], tier, live, dryRun)
            == Counted(Tally(d0, root, artifacts[..k], tier, live, dryRun), IsDead(artifacts[k], tier, live),
                       SizeAt(now, root + artifacts[k].path))
  {
    assert artifacts[..k + 1][..k] == artifacts[..k];
    if DistinctPaths(artifacts) { NotYetRemoved(root, artifacts, tier, live, k); }
  }

  /** The removal loop. */
  method RemoveDead(fs: FileSystem, root: Path, artifacts: seq<ArtifactEntry>, tier: Tier, live: set<Hash>,
                    dryRun: bool)
    returns (r: Result<GcSummary, GcError>)
    requires fs.Valid()
    modifies fs
    ensures fs.Valid() && old(fs.trace) <= fs.trace
    ensures forall i | |old(fs.trace)| <= i < |fs.trace| ::
              PrunedFrom(old(fs.disk), fs.trace[i], DeadPaths(root, artifacts, tier, live))
    ensures r.Ok? ==> fs.disk == Pruned(old(fs.disk), dryRun, DeadPaths(root, artifacts, tier, live))
    ensures dryRun ==> r.Ok? && fs.trace == old(fs.trace)
    ensures fs.reliable && DeadPaths(root, artifacts, tier, live) !! old(fs.disk.dirs) ==> r.Ok?
    ensures r.Ok? && (dryRun || DistinctPaths(artifacts)) ==>
              r.value == Tally(old(fs.disk), root, artifacts, tier, live, dryRun)
  {
    ghost var d0, dead := fs.disk, DeadPaths(root, artifacts, tier, live);
    var summary := GcSummary(0, 0, dryRun);
    for k := 0 to |artifacts|
      invariant fs.Valid() && old(fs.trace) <= fs.trace && (dryRun ==> fs.trace == old(fs.trace))
      invariant forall i | |old(fs.trace)| <= i < |fs.trace| :: PrunedFrom(d0, fs.trace[i], dead)
      invariant fs.disk == Pruned(d0, dryRun, DeadPaths(root, artifacts[..k], tier, live))
      invariant dryRun || DistinctPaths(artifacts) ==> summary == Tally(d0, root, artifacts[..k], tier, live, dryRun)
    {
      PruneStep(d0, root, artifacts, tier, live, dryRun, k);
      if dryRun || DistinctPaths(artifacts) { TallyStep(d0, root, artifacts, tier, live, dryRun, k); }
      if IsDead(artifacts[k], tier, live) {
        var path := root + artifacts[k].path;
        summary := Counted(summary, true, SizeAt(fs.disk, path));
        if !dryRun {
          var io := fs.RemoveFile(path);
          if io.Failed? || io.AlreadyExists? {
            assert path in dead;
            return Err(IoFailed(path));
          }
        }
      }
    }
    assert artifacts[..|artifacts|] == artifacts;
    r := Ok(summary);
  }

  // ----- Empty shards -----

  ghost predicate SweptFrom(d0: Disk, d: Disk, root: Path) {
    d.files == d0.files && d.dirs <= d0.dirs && d0.dirs - EmptyShards(d0, root) <= d.dirs
  }

  lemma ShardStaysEmpty(d0: Disk, d: Disk, root: Path, p: Path)
    requires SweptFrom(d0, d, root) && IsShardDir(root, p)
    ensures IsEmptyDir(d, p) <==> IsEmptyDir(d0, p)
  {
    forall q | q in d0.dirs && q !in d.dirs ensures !ChildOf(q, p) { ShardIsNoChildOfShard(root, p, q); }
  }

  /** `remove_empty_shards`: exactly the empty shard directories go, whatever order the directory is
      listed in; nothing else under the cache root is touched. */
  method RemoveEmptyShards(fs: FileSystem, root: Path) returns (r: Result<(), GcError>)
    requires fs.Valid()
    modifies fs
    ensures fs.Valid() && old(fs.trace) <= fs.trace
    ensures forall i | |old(fs.trace)| <= i < |fs.trace| :: SweptFrom(old(fs.disk), fs.trace[i], root)
    ensures SweptFrom(old(fs.disk), fs.disk, root)
    ensures fs.reliable ==> r.Ok?
    ensures r.Ok? && CodegenRoot(root) in old(fs.disk.dirs) ==>
              fs.disk == old(fs.disk).(dirs := old(fs.disk.dirs) - EmptyShards(old(fs.disk), root))
  {
    ghost var d0 := fs.disk;
    var codegen := CodegenRoot(root);
    var io, entries := fs.ReadDir(codegen);
    if io.NotFound? { return Ok(()); }
    if !io.Done? { return Err(IoFailed(codegen)); }
    assert forall p | p in EmptyShards(d0, root) :: p in entries;
    var left := entries;
    while left != {}
      invariant fs.Valid() && old(fs.trace) <= fs.trace
      invariant forall i | |old(fs.trace)| <= i < |fs.trace| :: SweptFrom(d0, fs.trace[i], root)
      invariant SweptFrom(d0, fs.disk, root)
      invariant left <= entries && forall p | p in EmptyShards(d0, root) && p !in left :: p !in fs.disk.dirs
      decreases left
    {
      var path :| path in left;
      left := left - {path};
      if path in fs.disk.dirs && IsShardDir(root, path) {
        ShardStaysEmpty(d0, fs.disk, root, path);
        var io', children := fs.ReadDir(path);
        if !io'.Done? { return Err(IoFailed(path)); }
        assert children == {} <==> IsEmptyDir(fs.disk, path) by {
          if children == {} {
            forall q | q in fs.disk.files ensures !ChildOf(q, path) { assert ChildOf(q, path) ==> q in children; }
            forall q | q in fs.disk.dirs ensures !ChildOf(q, path) { assert ChildOf(q, path) ==> q in children; }
          }
        }
        if children == {} {
          var io'' := fs.RemoveDir(path);
          if io''.Failed? || io''.AlreadyExists? { return Err(IoFailed(path)); }
        }
      }
    }
    assert fs.disk.dirs == d0.dirs - EmptyShards(d0, root);
    r := Ok(());
  }

  // ----- gc.run -----

  /** The marked disk with every dead file gone. */
  ghost function Cleared(d0: Disk, pass: Pass): Disk {
    Pruned(Marked(d0, pass), false, pass.dead)
  }

  lemma MarkerInNoShard(root: Path, p: Path)
    requires IsShardDir(root, p)
    ensures !ChildOf(Marker(root), p)
  {
  }

  lemma ClearedShards(d0: Disk, pass: Pass)
    ensures Cleared(d0, pass).files - {Marker(pass.root)} == Swept(d0, pass).files
    ensures pass.tier.Cache? ==> EmptyShards(Cleared(d0, pass), pass.root) == Doomed(d0, pass)
  {
    var c, s, marker := Cleared(d0, pass), Swept(d0, pass), Marker(pass.root);
    assert c.files - {marker} == s.files;
    forall p | p in c.dirs && IsShardDir(pass.root, p) ensures IsEmptyDir(c, p) <==> IsEmptyDir(s, p) {
      MarkerInNoShard(pass.root, p);
      forall q | q in c.files && q != marker ensures q in s.files { assert q in c.files - {marker}; }
      forall q | q in s.files ensures q in c.files { assert q in c.files - {marker}; }
    }
  }

  lemma SweptIsResumable(d0: Disk, d: Disk, pass: Pass)
    requires pass.tier.Cache? && SweptFrom(Cleared(d0, pass), d, pass.root)
    ensures InProgress(d0, d, pass)
  {
    ClearedShards(d0, pass);
    PrunedIsPrunedFrom(Marked(d0, pass), false, pass.dead, pass.dead);
    PrunedIsResumable(d0, Cleared(d0, pass), pass);
  }

  /** The marker stands, unless the manifest itself lists it as a dead artifact. */
  ghost predicate InProgress(d0: Disk, d: Disk, pass: Pass) {
    Resumable(d0, d, pass) && (Marker(pass.root) !in pass.dead ==> Marker(pass.root) in d.files)
  }

  lemma PrunedIsInProgress(d0: Disk, d: Disk, pass: Pass)
    requires PrunedFrom(Marked(d0, pass), d, pass.dead)
    ensures InProgress(d0, d, pass)
  {
    PrunedIsResumable(d0, d, pass);
    assert Marker(pass.root) !in pass.dead ==> Marker(pass.root) in Marked(d0, pass).files - pass.dead;
  }

  /** Everything between the marker's creation and its removal. */
  method Collect(fs: FileSystem, ghost d0: Disk, ghost pass: Pass, root: Path, artifacts: seq<ArtifactEntry>,
                 tier: Tier, live: set<Hash>)
    returns (r: Result<GcSummary, GcError>)
    requires fs.Valid() && fs.disk == Marked(d0, pass) && pass.root == root && pass.tier == tier
    requires pass.dead == DeadPaths(pass.root, artifacts, pass.tier, live)
    modifies fs
    ensures fs.Valid() && old(fs.trace) <= fs.trace
    ensures forall i | |old(fs.trace)| <= i < |fs.trace| :: InProgress(d0, fs.trace[i], pass)
    ensures r.Ok? ==> fs.disk == Cleared(d0, pass).(dirs := Cleared(d0, pass).dirs - Doomed(d0, pass))
    ensures fs.reliable && Clear(d0, pass) ==> r.Ok?
    ensures r.Ok? && DistinctPaths(artifacts) ==>
              r.value == Tally(Marked(d0, pass), pass.root, artifacts, pass.tier, live, false)
  {
    ghost var n0 := |fs.trace|;
    r := RemoveDead(fs, root, artifacts, tier, live, false);
    forall i | n0 <= i < |fs.trace| ensures InProgress(d0, fs.trace[i], pass) {
      PrunedIsInProgress(d0, fs.trace[i], pass);
    }
    if r.Err? { return; }
    if tier.Cache? {
      ghost var n1 := |fs.trace|;
      assert CodegenRoot(pass.root) in fs.disk.dirs by {
        var c := CodegenRoot(pass.root);
        assert c[..|c|] == c;
      }
      var swept := RemoveEmptyShards(fs, root);
      forall i | n1 <= i < |fs.trace| ensures InProgress(d0, fs.trace[i], pass) {
        SweptIsResumable(d0, fs.trace[i], pass);
      }
      if swept.Err? { return Err(swept.error); }
      ClearedShards(d0, pass);
    }
  }

  ghost predicate MarkerStands(trace: seq<Disk>, pass: Pass, start: nat, stop: nat)
    requires stop <= |trace|
  {
    forall i | start <= i < stop :: Marker(pass.root) in trace[i].files
  }

  /** How a real run relates the disk before it to the states it went through. */
  ghost predicate RanTo(d0: Disk, n0: nat, d: Disk, trace: seq<Disk>, pass: Pass, ok: bool, start: nat, stop: nat) {
    && start <= stop <= |trace|
    && (forall i | n0 <= i < |trace| :: Resumable(d0, trace[i], pass))
    && (forall i | n0 <= i < start && i < |trace| :: Marking(d0, trace[i], pass))
    && (Marker(pass.root) !in pass.dead ==> MarkerStands(trace, pass, start, stop))
    && (ok ==> (MarkerStands(trace, pass, start, stop) <==> Marker(pass.root) !in pass.dead))
    && (ok ==> d == Final(d0, pass) && forall i | stop <= i < |trace| :: trace[i] == d)
    && (!ok ==> stop == |trace|)
  }

  /** The disk whose files a run counts: the marker is written before the real pass counts it. */
  ghost function CountedDisk(d0: Disk, pass: Pass, dryRun: bool): Disk {
    if dryRun || Marker(pass.root) !in pass.dead then d0 else Marked(d0, pass)
  }

  lemma ClearedLacksDeadMarker(d0: Disk, pass: Pass)
    ensures Marker(pass.root) in pass.dead ==> Marker(pass.root) !in Cleared(d0, pass).files
  {
  }

  lemma LastStep(d0: Disk, pass: Pass, d1: Disk, d2: Disk)
    requires d1 == Cleared(d0, pass).(dirs := Cleared(d0, pass).dirs - Doomed(d0, pass)) && d2.dirs == d1.dirs
    requires d2.files == d1.files - {Marker(pass.root)}
    ensures d2 == Final(d0, pass) && Resumable(d0, d2, pass)
  {
    FinalIsResumable(d0, pass);
    ClearedShards(d0, pass);
  }

  /** What happens once the marker stands, in the states from `n` on. */
  ghost predicate Finished(d0: Disk, n: nat, d: Disk, trace: seq<Disk>, pass: Pass, ok: bool, stop: nat) {
    && n <= stop <= |trace|
    && (forall i | n <= i < |trace| :: Resumable(d0, trace[i], pass))
    && (Marker(pass.root) !in pass.dead ==> MarkerStands(trace, pass, n, stop))
    && (ok && Marker(pass.root) in pass.dead ==> !MarkerStands(trace, pass, n, stop))
    && (ok ==> d == Final(d0, pass) && forall i | stop <= i < |trace| :: trace[i] == d)
    && (!ok ==> stop == |trace|)
  }

  method CollectAndUnmark(fs: FileSystem, ghost d0: Disk, ghost pass: Pass, root: Path, artifacts: seq<ArtifactEntry>,
                          tier: Tier, live: set<Hash>)
    returns (r: Result<GcSummary, GcError>, ghost stop: nat)
    requires fs.Valid() && fs.disk == Marked(d0, pass)
    requires pass == Pass(root, DeadPaths(root, artifacts, tier, live), tier)
    modifies fs
    ensures fs.Valid() && old(fs.trace) <= fs.trace
    ensures Finished(d0, |old(fs.trace)|, fs.disk, fs.trace, pass, r.Ok?, stop)
    ensures fs.reliable && Clear(d0, pass) ==> r.Ok?
    ensures r.Ok? && DistinctPaths(artifacts) ==>
              r.value == Tally(Marked(d0, pass), root, artifacts, tier, live, false)
  {
    r := Collect(fs, d0, pass, root, artifacts, tier, live);
    stop := |fs.trace|;
    if r.Err? { return; }
    ClearedLacksDeadMarker(d0, pass);
    ghost var d1 := fs.disk;
    assert Marker(root) in pass.dead ==> Marker(root) !in fs.trace[stop - 1].files;
    var io := fs.RemoveFile(Marker(root));
    if io.Failed? || io.AlreadyExists? {
      return Err(IoFailed(Marker(root))), |fs.trace|;
    }
    LastStep(d0, pass, d1, fs.disk);
  }

  /** A real pass: marker, removals, shards, marker away. */
  method RunPass(fs: FileSystem, ghost pass: Pass, root: Path, artifacts: seq<ArtifactEntry>, tier: Tier,
                 live: set<Hash>)
    returns (r: Result<GcSummary, GcError>, ghost start: nat, ghost stop: nat)
    requires fs.Valid() && pass == Pass(root, DeadPaths(root, artifacts, tier, live), tier)
    modifies fs
    ensures fs.Valid() && old(fs.trace) <= fs.trace
    ensures RanTo(old(fs.disk), |old(fs.trace)|, fs.disk, fs.trace, pass, r.Ok?, start, stop)
    ensures fs.reliable && Clear(old(fs.disk), pass) ==> r.Ok?
    ensures r.Ok? && DistinctPaths(artifacts) ==>
              r.value == Tally(CountedDisk(old(fs.disk), pass, false), root, artifacts, tier, live, false)
  {
    ghost var n0, d0 := |fs.trace|, fs.disk;
    var placed := PlaceMarker(fs, root, pass);
    forall i | n0 <= i < |fs.trace| ensures Resumable(d0, fs.trace[i], pass) {
      MarkingIsResumable(d0, fs.trace[i], pass);
    }
    if placed.Err? {
      start, stop := |fs.trace|, |fs.trace|;
      return Err(placed.error), start, stop;
    }
    start := |fs.trace| - 1;
    r, stop := CollectAndUnmark(fs, d0, pass, root, artifacts, tier, live);
    if Marker(root) !in pass.dead { TallyIgnoresMarker(d0, pass, artifacts, live); }
  }

  /** The marker is no entry, so writing it changes no size. */
  lemma {:induction false} TallyIgnoresMarker(d0: Disk, pass: Pass, artifacts: seq<ArtifactEntry>, live: set<Hash>)
    requires Marker(pass.root) !in DeadPaths(pass.root, artifacts, pass.tier, live)
    ensures Tally(Marked(d0, pass), pass.root, artifacts, pass.tier, live, false)
         == Tally(d0, pass.root, artifacts, pass.tier, live, false)
  {
    if artifacts != [] {
      var k := |artifacts| - 1;
      assert artifacts[..k + 1] == artifacts;
      DeadPathsStep(pass.root, artifacts, pass.tier, live, k);
      TallyIgnoresMarker(d0, pass, artifacts[..k], live);
    }
  }

  /** `Gc::run`. A dry run changes nothing. Otherwise every state the disk passes through is one from
      which the pass can be resumed; nothing is deleted before the marker stands; unless the marker is
      itself listed as dead it stands from `start` up to `stop`, and an error after `start` leaves it
      standing; success ends in `Final`. */
  method Run(fs: FileSystem, root: Path, manifest: Manifest, tier: Tier, live: set<Hash>, dryRun: bool)
    returns (r: Result<GcSummary, GcError>, ghost start: nat, ghost stop: nat)
    requires fs.Valid()
    modifies fs
    ensures fs.Valid() && old(fs.trace) <= fs.trace
    ensures dryRun ==> r.Ok? && fs.disk == old(fs.disk) && fs.trace == old(fs.trace)
    ensures !dryRun ==>
              RanTo(old(fs.disk), |old(fs.trace)|, fs.disk, fs.trace,
                    Pass(root, DeadPaths(root, manifest.artifacts, tier, live), tier), r.Ok?, start, stop)
    ensures fs.reliable && Clear(old(fs.disk), Pass(root, DeadPaths(root, manifest.artifacts, tier, live), tier)) ==>
              r.Ok?
    ensures r.Ok? && (dryRun || DistinctPaths(manifest.artifacts)) ==>
              var pass := Pass(root, DeadPaths(root, manifest.artifacts, tier, live), tier);
              r.value == Tally(CountedDisk(old(fs.disk), pass, dryRun), root, manifest.artifacts, tier, live, dryRun)
  {
    ghost var pass := Pass(root, DeadPaths(root, manifest.artifacts, tier, live), tier);
    if dryRun {
      r := RemoveDead(fs, root, manifest.artifacts, tier, live, true);
      start, stop := |fs.trace|, |fs.trace|;
    } else {
      r, start, stop := RunPass(fs, pass, root, manifest.artifacts, tier, live);
    }
  }

  // ----- What survives -----

  /** An uninterrupted pass leaves an artifact's file in place exactly when no entry of the collected tier whose
      hash is not live has the same path. */
  lemma SurvivesIffPathNotShared(d0: Disk, root: Path, artifacts: seq<ArtifactEntry>, tier: Tier, live: set<Hash>,
                                 k: nat)
    requires k < |artifacts| && root + artifacts[k].path in d0.files && root + artifacts[k].path != Marker(root)
    ensures root + artifacts[k].path in Final(d0, Pass(root, DeadPaths(root, artifacts, tier, live), tier)).files
       <==> forall i | 0 <= i < |artifacts| && artifacts[i].tier == tier && artifacts[i].hash !in live ::
              artifacts[i].path != artifacts[k].path
  {
    forall i | 0 <= i < |artifacts| && IsDead(artifacts[i], tier, live)
      ensures root + artifacts[i].path == root + artifacts[k].path <==> artifacts[i].path == artifacts[k].path
    {
      JoinIsInjective(root, artifacts[i].path, artifacts[k].path);
    }
  }

  /** With distinct entry paths, no crash or error point has lost a live or other-tier artifact. */
  lemma LiveFilesAreSafe(d0: Disk, d: Disk, root: Path, artifacts: seq<ArtifactEntry>, tier: Tier, live: set<Hash>,
                         k: nat)
    requires DistinctPaths(artifacts) && k < |artifacts|
    requires artifacts[k].hash in live || artifacts[k].tier != tier
    requires Resumable(d0, d, Pass(root, DeadPaths(root, artifacts, tier, live), tier))
    requires root + artifacts[k].path in d0.files && root + artifacts[k].path != Marker(root)
    ensures root + artifacts[k].path in d.files
    ensures d.files[root + artifacts[k].path] == d0.files[root + artifacts[k].path]
  {
    var p, dead := root + artifacts[k].path, DeadPaths(root, artifacts, tier, live);
    assert p !in dead by {
      forall i | 0 <= i < |artifacts| && IsDead(artifacts[i], tier, live) ensures root + artifacts[i].path != p {
        JoinIsInjective(root, artifacts[i].path, artifacts[k].path);
      }
    }
    assert p in d0.files - (dead + {Marker(root)});
  }

  /** The directories an uninterrupted pass leaves: those there were and the cache's own, but for the shard
      directories that hold nothing any more. */
  lemma FinalDirs(d0: Disk, pass: Pass, p: Path)
    ensures var codegen := pass.root + [Ascii(".edda"), Ascii("cache"), Ascii("codegen")];
      p in Final(d0, pass).dirs <==>
      && (p in d0.dirs || exists i :: 0 < i <= |codegen| && p == codegen[..i])
      && !(&& pass.tier == Cache
           && |p| == |codegen| + 1 && p[..|codegen|] == codegen
           && |p[|codegen|]| == 4 && (forall j | 0 <= j < 4 :: IsOneOf(p[|codegen|][j], "0123456789abcdef"))
           && (forall name :: p + [name] !in Final(d0, pass).files)
           && (forall name :: p + [name] !in d0.dirs))
  {
    var s, codegen := Swept(d0, pass), CodegenRoot(pass.root);
    if IsShardDir(pass.root, p) {
      forall q ensures ChildOf(q, p) <==> exists name :: q == p + [name] { ChildOfIff(q, p); }
      forall name ensures p + [name] in s.dirs <==> p + [name] in d0.dirs {
        assert ChildOf(p + [name], p);
      }
      assert IsEmptyDir(s, p) <==> forall name :: p + [name] !in s.files && p + [name] !in s.dirs;
    }
    ShardDirSpelled(pass.root, p);
  }

  lemma HexLowerIff(b: byte)
    ensures IsHexLower(b) <==> IsOneOf(b, "0123456789abcdef")
  {
    var digits := "0123456789abcdef";
    if 0x30 <= b <= 0x39 {
      assert digits[b - 0x30] as int == b;
    } else if 0x61 <= b <= 0x66 {
      assert digits[b - 0x57] as int == b;
    }
  }

  lemma ShardDirSpelled(root: Path, p: Path)
    ensures var codegen := root + [Ascii(".edda"), Ascii("cache"), Ascii("codegen")];
      IsShardDir(root, p) <==>
      && |p| == |codegen| + 1 && p[..|codegen|] == codegen
      && |p[|codegen|]| == 4 && (forall j | 0 <= j < 4 :: IsOneOf(p[|codegen|][j], "0123456789abcdef"))
  {
    forall b: byte ensures IsHexLower(b) <==> IsOneOf(b, "0123456789abcdef") { HexLowerIff(b); }
  }

  /** The bytes of every collected artifact on the disk. */
  ghost function DeadBytes(d: Disk, root: Path, artifacts: seq<ArtifactEntry>, tier: Tier, live: set<Hash>): nat {
    if artifacts == [] then 0
    else
      var e := artifacts[|artifacts| - 1];
      DeadBytes(d, root, artifacts[..|artifacts| - 1], tier, live)
      + if e.tier == tier && e.hash !in live && root + e.path in d.files then |d.files[root + e.path]| else 0
  }

  /** The summary: how many entries of the tier are not live, and their bytes, up to the largest word. */
  lemma {:induction false} TallyCounts(d: Disk, root: Path, artifacts: seq<ArtifactEntry>, tier: Tier,
                                       live: set<Hash>, dryRun: bool)
    ensures var t := Tally(d, root, artifacts, tier, live, dryRun);
      && t.artifactsRemoved
         == |set i | 0 <= i < |artifacts| && artifacts[i].tier == tier && artifacts[i].hash !in live|
      && t.dryRun == dryRun
      && var total := DeadBytes(d, root, artifacts, tier, live);
         t.bytesRecovered == if total <= 0xffff_ffff_ffff_ffff then total else 0xffff_ffff_ffff_ffff
  {
    if artifacts != [] {
      var n := |artifacts| - 1;
      var init, e := artifacts[..n], artifacts[n];
      TallyCounts(d, root, init, tier, live, dryRun);
      DeadIndices(artifacts, tier, live);
    }
  }

  lemma DeadIndices(artifacts: seq<ArtifactEntry>, tier: Tier, live: set<Hash>)
    requires artifacts != []
    ensures var n := |artifacts| - 1;
      var before := set i | 0 <= i < n && artifacts[..n][i].tier == tier && artifacts[..n][i].hash !in live;
      var now := set i | 0 <= i < |artifacts| && artifacts[i].tier == tier && artifacts[i].hash !in live;
      |now| == |before| + if artifacts[n].tier == tier && artifacts[n].hash !in live then 1 else 0
  {
    var n := |artifacts| - 1;
    var before := set i | 0 <= i < n && artifacts[..n][i].tier == tier && artifacts[..n][i].hash !in live;
    var now := set i | 0 <= i < |artifacts| && artifacts[i].tier == tier && artifacts[i].hash !in live;
    assert now == before + if artifacts[n].tier == tier && artifacts[n].hash !in live then {n} else {};
  }

  /** Two entries at one path, one live and one not: the live file is removed. */
  lemma SharedPathLosesLiveFile(d0: Disk, root: Path, a: ArtifactEntry, b: ArtifactEntry, live: set<Hash>)
    requires a.path == b.path && a.tier == b.tier && a.hash in live && b.hash !in live
    ensures root + a.path !in Final(d0, Pass(root, DeadPaths(root, [a, b], a.tier, live), a.tier)).files
  {
    assert IsDead([a, b][1], a.tier, live);
    assert root + a.path in DeadPaths(root, [a, b], a.tier, live);
  }

  /** A manifest that lists the marker's path as a dead artifact: the marker is placed, and gone before the end. */
  lemma ListedMarkerVanishes(d0: Disk, root: Path, e: ArtifactEntry, live: set<Hash>)
    requires e.hash !in live
    requires e.path == [Ascii(".edda"), Ascii("cache"), Ascii("codegen"), Ascii(".gc-in-progress")]
    ensures var pass := Pass(root, DeadPaths(root, [e], e.tier, live), e.tier);
      && Marker(root) in Marked(d0, pass).files && Marker(root) !in Cleared(d0, pass).files
  {
    var pass := Pass(root, DeadPaths(root, [e], e.tier, live), e.tier);
    assert IsDead([e][0], e.tier, live);
    assert root + e.path == Marker(root);
    ClearedLacksDeadMarker(d0, pass);
  }
}
