/** One cascade of generated artifacts (`edda-codegen/src/cascade.rs`): staging and the manifest merge. */
module Session {
  import opened Bytes
  import opened Manifests
  import opened Disks
  import opened Decimal
  import opened Staging

  // ----- Merging into the prior manifest -----

  ghost predicate UniqueHashes(artifacts: seq<ArtifactEntry>) {
    forall i, j | 0 <= i < j < |artifacts| :: artifacts[i].hash != artifacts[j].hash
  }

  ghost predicate HasHash(artifacts: seq<ArtifactEntry>, h: Hash) {
    exists i :: 0 <= i < |artifacts| && artifacts[i].hash == h
  }

  /** `iter_mut().find(|e| e.hash == h)`: the first position with hash `h`, or the length. */
  method FindHash(artifacts: seq<ArtifactEntry>, h: Hash) returns (k: nat)
    ensures k <= |artifacts|
    ensures k < |artifacts| ==> artifacts[k].hash == h
    ensures forall i | 0 <= i < k :: artifacts[i].hash != h
  {
    k := 0;
    while k < |artifacts| && artifacts[k].hash != h
      invariant k <= |artifacts| && forall i | 0 <= i < k :: artifacts[i].hash != h
    {
      k := k + 1;
    }
  }

  /** Overwrite the first entry with the same hash, or append. */
  ghost function Put(artifacts: seq<ArtifactEntry>, e: ArtifactEntry): seq<ArtifactEntry> {
    if artifacts == [] then [e]
    else if artifacts[0].hash == e.hash then [e] + artifacts[1..]
    else [artifacts[0]] + Put(artifacts[1..], e)
  }

  ghost function Merge(prior: seq<ArtifactEntry>, pending: seq<ArtifactEntry>): seq<ArtifactEntry> {
    if pending == [] then prior
    else Put(Merge(prior, pending[..|pending| - 1]), pending[|pending| - 1])
  }

  lemma {:induction false} PutAt(artifacts: seq<ArtifactEntry>, e: ArtifactEntry, k: nat)
    requires k <= |artifacts| && forall i | 0 <= i < k :: artifacts[i].hash != e.hash
    requires k < |artifacts| ==> artifacts[k].hash == e.hash
    ensures Put(artifacts, e) == if k < |artifacts| then artifacts[k := e] else artifacts + [e]
  {
    if k > 0 {
      PutAt(artifacts[1..], e, k - 1);
      assert artifacts == [artifacts[0]] + artifacts[1..];
    } else if artifacts != [] {
      assert artifacts[0 := e] == [e] + artifacts[1..];
    }
  }

  /** `merge_manifest`. */
  method MergeManifest(prior: Manifest, pending: seq<ArtifactEntry>, now: int) returns (m: Manifest)
    ensures m == prior.(generatedAt := now, artifacts := Merge(prior.artifacts, pending))
  {
    var artifacts := prior.artifacts;
    for k := 0 to |pending|
      invariant artifacts == Merge(prior.artifacts, pending[..k])
    {
      var at := FindHash(artifacts, pending[k].hash);
      PutAt(artifacts, pending[k], at);
      assert pending[..k + 1][..k] == pending[..k];
      artifacts := if at < |artifacts| then artifacts[at := pending[k]] else artifacts + [pending[k]];
    }
    assert pending[..|pending|] == pending;
    m := prior.(generatedAt := now, artifacts := artifacts);
  }

  /** Where the first entry with hash `h` sits, if any. */
  ghost function Position(artifacts: seq<ArtifactEntry>, h: Hash): (k: nat)
    ensures k <= |artifacts|
    ensures k < |artifacts| ==> artifacts[k].hash == h
    ensures forall i | 0 <= i < k :: artifacts[i].hash != h
  {
    if artifacts == [] || artifacts[0].hash == h then 0 else 1 + Position(artifacts[1..], h)
  }

  lemma PutKeepsUnique(artifacts: seq<ArtifactEntry>, e: ArtifactEntry)
    requires UniqueHashes(artifacts)
    ensures UniqueHashes(Put(artifacts, e))
    ensures forall x :: x in Put(artifacts, e) <==> x == e || (x in artifacts && x.hash != e.hash)
  {
    var k := Position(artifacts, e.hash);
    PutAt(artifacts, e, k);
    var r := Put(artifacts, e);
    forall x ensures x in r <==> x == e || (x in artifacts && x.hash != e.hash) {
      if x in r {
        var i :| 0 <= i < |r| && r[i] == x;
        if i < |artifacts| && i != k { assert artifacts[i] == x; }
      }
      if x in artifacts && x.hash != e.hash {
        var i :| 0 <= i < |artifacts| && artifacts[i] == x;
        assert r[i] == x;
      }
      assert r[k] == e;
    }
  }

  /** The merged list, entry by entry: the pending entries, and the prior ones whose hash is not
      pending. Hashes stay unique. */
  lemma {:induction false} MergeContents(prior: seq<ArtifactEntry>, pending: seq<ArtifactEntry>)
    requires UniqueHashes(prior) && UniqueHashes(pending)
    ensures UniqueHashes(Merge(prior, pending))
    ensures forall x :: x in Merge(prior, pending) <==> x in pending || (x in prior && !HasHash(pending, x.hash))
  {
    if pending != [] {
      var init, last := pending[..|pending| - 1], pending[|pending| - 1];
      assert pending == init + [last];
      assert UniqueHashes(init) by {
        forall i, j | 0 <= i < j < |init| ensures init[i].hash != init[j].hash {
          assert init[i] == pending[i] && init[j] == pending[j];
        }
      }
      MergeContents(prior, init);
      PutKeepsUnique(Merge(prior, init), last);
      forall x ensures x in Merge(prior, pending) <==> x in pending || (x in prior && !HasHash(pending, x.hash)) {
        HasHashSnoc(init, last, x.hash);
        assert x in init ==> x.hash != last.hash by {
          if x in init { var i :| 0 <= i < |init| && init[i] == x; assert pending[i] == x; }
        }
      }
    }
  }

  lemma HasHashSnoc(init: seq<ArtifactEntry>, last: ArtifactEntry, h: Hash)
    ensures HasHash(init + [last], h) <==> HasHash(init, h) || last.hash == h
  {
    var s := init + [last];
    if HasHash(init, h) {
      var i :| 0 <= i < |init| && init[i].hash == h;
      assert s[i].hash == h;
    }
    if last.hash == h { assert s[|init|].hash == h; }
  }

  /** Nothing is reordered: prior entries keep their positions, and new hashes follow. */
  lemma {:induction false} MergeKeepsPositions(prior: seq<ArtifactEntry>, pending: seq<ArtifactEntry>, i: nat)
    requires i < |prior|
    ensures |Merge(prior, pending)| >= |prior|
    ensures Merge(prior, pending)[i].hash == prior[i].hash
    ensures !HasHash(pending, prior[i].hash) ==> Merge(prior, pending)[i] == prior[i]
  {
    if pending != [] {
      var init, last := pending[..|pending| - 1], pending[|pending| - 1];
      assert pending == init + [last];
      HasHashSnoc(init, last, prior[i].hash);
      MergeKeepsPositions(prior, init, i);
      PutAt(Merge(prior, init), last, Position(Merge(prior, init), last.hash));
    }
  }

  lemma PutPresent(artifacts: seq<ArtifactEntry>, e: ArtifactEntry)
    requires UniqueHashes(artifacts) && e in artifacts
    ensures Put(artifacts, e) == artifacts
  {
    var k := Position(artifacts, e.hash);
    var i :| 0 <= i < |artifacts| && artifacts[i] == e;
    PutAt(artifacts, e, k);
  }

  lemma {:induction false} MergePresent(artifacts: seq<ArtifactEntry>, pending: seq<ArtifactEntry>)
    requires UniqueHashes(artifacts) && forall x | x in pending :: x in artifacts
    ensures Merge(artifacts, pending) == artifacts
  {
    if pending != [] {
      var init, last := pending[..|pending| - 1], pending[|pending| - 1];
      assert pending == init + [last];
      MergePresent(artifacts, init);
      PutPresent(artifacts, last);
    }
  }

  /** Committing the same entries again changes nothing in the artifact list. */
  lemma MergeIsIdempotent(prior: seq<ArtifactEntry>, pending: seq<ArtifactEntry>)
    requires UniqueHashes(prior) && UniqueHashes(pending)
    ensures Merge(Merge(prior, pending), pending) == Merge(prior, pending)
  {
    MergeContents(prior, pending);
    MergePresent(Merge(prior, pending), pending);
  }

  // ----- Staging -----

  /** What `stage` computes from its request: the hash of the form, the artifact name if one can be
      mangled, the tier-specific final path below the project root, and the bytes to write. */
  datatype StageRequest = StageRequest(
    hash: Hash, name: Option<Str>, shortName: Name, tier: Tier, path: Path, nestedShort: seq<Name>, bytes: seq<byte>)

  datatype StagedArtifact = StagedArtifact(hash: Hash, name: Str, path: Path)

  datatype StageError = InvalidArtifactName | WriteFailed

  /** The session's records. */
  datatype Ledger = Ledger(entries: seq<ArtifactEntry>, staged: map<Hash, StagedArtifact>)

  function EntryFor(req: StageRequest, now: int): ArtifactEntry {
    ArtifactEntry(req.path, req.hash, req.shortName, req.tier, req.nestedShort, now)
  }

  /** One `stage` call; `written` is whether the staging write went through. */
  function StageOnce(l: Ledger, req: StageRequest, written: bool, now: int)
    : (Ledger, Result<StagedArtifact, StageError>)
  {
    if req.hash in l.staged then (l, Ok(l.staged[req.hash]))
    else if req.name.None? then (l, Err(InvalidArtifactName))
    else if !written then (l, Err(WriteFailed))
    else
      var artifact := StagedArtifact(req.hash, req.name.value, req.path);
      (Ledger(l.entries + [EntryFor(req, now)], l.staged[req.hash := artifact]), Ok(artifact))
  }

  ghost predicate LedgerInv(l: Ledger) {
    && UniqueHashes(l.entries)
    && (forall h :: h in l.staged <==> HasHash(l.entries, h))
    && (forall i | 0 <= i < |l.entries| ::
          l.entries[i].hash in l.staged && l.staged[l.entries[i].hash].path == l.entries[i].path)
  }

  lemma StageKeepsLedger(l: Ledger, req: StageRequest, written: bool, now: int)
    requires LedgerInv(l)
    ensures LedgerInv(StageOnce(l, req, written, now).0)
  {
    var l' := StageOnce(l, req, written, now).0;
    if l' != l {
      var e := EntryFor(req, now);
      forall h ensures h in l'.staged <==> HasHash(l'.entries, h) { HasHashSnoc(l.entries, e, h); }
      forall i, j | 0 <= i < j < |l'.entries| ensures l'.entries[i].hash != l'.entries[j].hash {
        assert l'.entries[i] == l.entries[i];
        assert HasHash(l.entries, l.entries[i].hash);
      }
    }
  }

  /** A request together with how its write fared and when. */
  datatype Attempt = Attempt(req: StageRequest, written: bool, now: int)

  ghost function StageAll(attempts: seq<Attempt>): Ledger {
    if attempts == [] then Ledger([], map[])
    else
      var a := attempts[|attempts| - 1];
      StageOnce(StageAll(attempts[..|attempts| - 1]), a.req, a.written, a.now).0
  }

  predicate Succeeds(a: Attempt) {
    a.req.name.Some? && a.written
  }

  ghost predicate FirstSuccess(attempts: seq<Attempt>, h: Hash, i: nat) {
    && i < |attempts| && attempts[i].req.hash == h && Succeeds(attempts[i])
    && forall j | 0 <= j < i && attempts[j].req.hash == h :: !Succeeds(attempts[j])
  }

  /** Over every sequence of successful and failing calls: entries have distinct hashes, the same ones as the
      staged map, and the identity kept for a hash is that of the first call that got through. */
  lemma {:induction false} FirstSuccessIsKept(attempts: seq<Attempt>, h: Hash)
    ensures LedgerInv(StageAll(attempts))
    ensures h in StageAll(attempts).staged <==> exists i: nat :: FirstSuccess(attempts, h, i)
    ensures forall i: nat | FirstSuccess(attempts, h, i) :: KeptFrom(StageAll(attempts), h, attempts[i].req)
  {
    if attempts != [] {
      var n := |attempts| - 1;
      var init, a := attempts[..n], attempts[n];
      FirstSuccessIsKept(init, h);
      StageKeepsLedger(StageAll(init), a.req, a.written, a.now);
      forall i: nat
        ensures FirstSuccess(attempts, h, i)
           <==> FirstSuccess(init, h, i) || (i == n && FirstSuccess(attempts, h, n))
      {
        FirstSuccessSnoc(attempts, h, i);
      }
      FirstSuccessAtEnd(attempts, h);
    }
  }

  /** And so is all of its entry: path, short name, tier, dependencies and time. */
  lemma {:induction false} FirstSuccessIsRecorded(attempts: seq<Attempt>, h: Hash, i: nat)
    requires FirstSuccess(attempts, h, i)
    ensures Records(StageAll(attempts).entries, attempts[i])
  {
    var n := |attempts| - 1;
    var init, a := attempts[..n], attempts[n];
    FirstSuccessIsKept(init, h);
    RecordsKept(StageAll(init), a);
    FirstSuccessSnoc(attempts, h, i);
    if i < n {
      FirstSuccessIsRecorded(init, h, i);
    } else {
      FirstSuccessAtEnd(attempts, h);
    }
  }

  /** The entry a successful call makes. */
  ghost predicate RecordedAs(e: ArtifactEntry, a: Attempt) {
    && e.hash == a.req.hash && e.path == a.req.path && e.shortName == a.req.shortName && e.tier == a.req.tier
    && e.nestedDeps == a.req.nestedShort && e.generatedAt == a.now
  }

  /** There is such an entry, and no other with its hash. */
  ghost predicate Records(artifacts: seq<ArtifactEntry>, a: Attempt) {
    && (exists i :: 0 <= i < |artifacts| && RecordedAs(artifacts[i], a))
    && (forall i | 0 <= i < |artifacts| && artifacts[i].hash == a.req.hash :: RecordedAs(artifacts[i], a))
  }

  /** One more call keeps every record, and makes one if it is the first to get through. */
  lemma RecordsKept(l: Ledger, a: Attempt)
    requires LedgerInv(l)
    ensures var l' := StageOnce(l, a.req, a.written, a.now).0;
      && (forall b | Records(l.entries, b) :: Records(l'.entries, b))
      && (Succeeds(a) && a.req.hash !in l.staged ==> Records(l'.entries, a))
  {
    var l' := StageOnce(l, a.req, a.written, a.now).0;
    if l' != l {
      var n := |l.entries|;
      assert l'.entries[n] == EntryFor(a.req, a.now);
      forall i | 0 <= i < n ensures l'.entries[i] == l.entries[i] && l.entries[i].hash != a.req.hash {
        assert HasHash(l.entries, l.entries[i].hash);
      }
    }
  }

  ghost predicate KeptFrom(l: Ledger, h: Hash, req: StageRequest) {
    h in l.staged && req.name.Some? && l.staged[h] == StagedArtifact(h, req.name.value, req.path)
  }

  /** The last attempt is the first success for its hash exactly when no earlier one succeeded. */
  lemma FirstSuccessAtEnd(attempts: seq<Attempt>, h: Hash)
    requires attempts != []
    ensures var n := |attempts| - 1;
            FirstSuccess(attempts, h, n)
            <==> attempts[n].req.hash == h && Succeeds(attempts[n])
                 && !exists i: nat :: FirstSuccess(attempts[..n], h, i)
  {
    var n := |attempts| - 1;
    var init := attempts[..n];
    assert forall j | 0 <= j < n :: init[j] == attempts[j];
    forall j | 0 <= j < n && attempts[j].req.hash == h && Succeeds(attempts[j])
      ensures exists i: nat :: FirstSuccess(init, h, i)
    {
      assert init[j] == attempts[j];
      SuccessHasFirst(init, h, j);
    }
  }

  lemma FirstSuccessSnoc(attempts: seq<Attempt>, h: Hash, i: nat)
    requires attempts != []
    ensures var n := |attempts| - 1;
            FirstSuccess(attempts, h, i)
            <==> FirstSuccess(attempts[..n], h, i) || (i == n && FirstSuccess(attempts, h, n))
  {
    var init := attempts[..|attempts| - 1];
    assert forall j | 0 <= j < |init| :: init[j] == attempts[j];
  }

  lemma {:induction false} SuccessHasFirst(attempts: seq<Attempt>, h: Hash, j: nat)
    requires j < |attempts| && attempts[j].req.hash == h && Succeeds(attempts[j])
    ensures exists i: nat :: FirstSuccess(attempts, h, i)
    decreases j
  {
    if !FirstSuccess(attempts, h, j) {
      var k :| 0 <= k < j && attempts[k].req.hash == h && Succeeds(attempts[k]);
      SuccessHasFirst(attempts, h, k);
    }
  }

  // ----- The session object -----

  function StagingName(index: nat, name: Str): Str {
    Numeral(index) + [0x2e] + name
  }

  /** The running index keeps staging names apart, whatever the artifact names are. */
  lemma StagingNamesDiffer(i: nat, a: Str, j: nat, b: Str)
    requires StagingName(i, a) == StagingName(j, b)
    ensures i == j && a == b
  {
    var s, x, y := StagingName(i, a), Numeral(i), Numeral(j);
    assert s[|x|] == 0x2e && s[|y|] == 0x2e;
    assert |x| == |y|;
    assert x == s[..|x|] && y == s[..|y|];
    NumeralIsInjective(i, j);
    assert a == s[|x| + 1..] && b == s[|y| + 1..];
  }

  /** The bytes of every pending artifact lie staged under its name. */
  ghost predicate Staged(d: Disk, dir: Path, pending: seq<PendingArtifact>, bodies: seq<seq<byte>>) {
    && |bodies| == |pending|
    && forall i | 0 <= i < |pending| :: Src(dir, pending[i]) in d.files && d.files[Src(dir, pending[i])] == bodies[i]
  }

  ghost predicate Numbered(pending: seq<PendingArtifact>, names: seq<Str>) {
    |names| == |pending| && forall i | 0 <= i < |pending| :: pending[i].stagingName == StagingName(i, names[i])
  }

  lemma NumberedAreDistinct(pending: seq<PendingArtifact>, names: seq<Str>)
    requires Numbered(pending, names)
    ensures DistinctNames(pending)
  {
    forall i, j | 0 <= i < j < |pending| ensures pending[i].stagingName != pending[j].stagingName {
      if pending[i].stagingName == pending[j].stagingName {
        StagingNamesDiffer(i, names[i], j, names[j]);
        assert false;
      }
    }
  }

  /** Writing under the next number leaves everything staged as it is. */
  lemma WriteKeepsStaged(d: Disk, d': Disk, dir: Path, pending: seq<PendingArtifact>, names: seq<Str>,
                         bodies: seq<seq<byte>>, name: Str)
    requires Numbered(pending, names) && Staged(d, dir, pending, bodies)
    requires OnlyFile(d, d', dir + [StagingName(|pending|, name)])
    ensures Staged(d', dir, pending, bodies)
  {
    var target := PendingArtifact([], StagingName(|pending|, name));
    NumberedAreDistinct(pending + [target], names + [name]);
    forall i | 0 <= i < |pending|
      ensures Src(dir, pending[i]) in d'.files && d'.files[Src(dir, pending[i])] == bodies[i]
    {
      assert (pending + [target])[i] == pending[i] && (pending + [target])[|pending|] == target;
      SrcDistinct(dir, pending[i], target);
      var p, n := Src(dir, pending[i]), Src(dir, target);
      assert p in d.files - {n} && (d.files - {n})[p] == d.files[p];
      assert p in d'.files - {n} && (d'.files - {n})[p] == d'.files[p];
    }
  }

  lemma StagedGrows(d: Disk, dir: Path, pending: seq<PendingArtifact>, bodies: seq<seq<byte>>, p: PendingArtifact,
                    body: seq<byte>)
    requires Staged(d, dir, pending, bodies) && Src(dir, p) in d.files && d.files[Src(dir, p)] == body
    ensures Staged(d, dir, pending + [p], bodies + [body])
  {
  }

  ghost predicate SessionInv(root: Path, ledger: Ledger, attempts: seq<Attempt>, pending: seq<PendingArtifact>,
                             names: seq<Str>, bodies: seq<seq<byte>>)
  {
    && LedgerInv(ledger) && ledger == StageAll(attempts) && Numbered(pending, names)
    && |pending| == |ledger.entries| == |bodies|
    && forall i | 0 <= i < |pending| :: pending[i].finalPath == root + ledger.entries[i].path
  }

  /** A call that does not get through, and one that does. */
  lemma SessionContinues(root: Path, ledger: Ledger, attempts: seq<Attempt>, pending: seq<PendingArtifact>,
                         names: seq<Str>, bodies: seq<seq<byte>>, req: StageRequest, now: int)
    requires SessionInv(root, ledger, attempts, pending, names, bodies)
    ensures StageOnce(ledger, req, false, now).0 == ledger
    ensures SessionInv(root, ledger, attempts + [Attempt(req, false, now)], pending, names, bodies)
    ensures req.hash !in ledger.staged && req.name.Some? ==>
              var next := PendingArtifact(root + req.path, StagingName(|pending|, req.name.value));
              SessionInv(root, StageOnce(ledger, req, true, now).0, attempts + [Attempt(req, true, now)],
                         pending + [next], names + [req.name.value], bodies + [req.bytes])
  {
    StageKeepsLedger(ledger, req, true, now);
    assert (attempts + [Attempt(req, true, now)])[..|attempts|] == attempts;
    assert (attempts + [Attempt(req, false, now)])[..|attempts|] == attempts;
  }

  class CodegenSession {
    const root: Path
    const dir: Path
    var manifest: Manifest
    var ledger: Ledger
    var pending: seq<PendingArtifact>
    ghost var names: seq<Str>
    /** What was staged for each pending artifact. */
    ghost var bodies: seq<seq<byte>>
    /** Every `stage` call so far. */
    ghost var attempts: seq<Attempt>

    ghost predicate Valid()
      reads this
    {
      SessionInv(root, ledger, attempts, pending, names, bodies)
    }

    /** `begin`: the staging directory exists and is empty. */
    constructor (root: Path, dir: Path, manifest: Manifest)
      ensures Valid() && this.root == root && this.dir == dir && this.manifest == manifest
      ensures ledger == Ledger([], map[]) && pending == [] && bodies == [] && attempts == []
    {
      this.root, this.dir, this.manifest := root, dir, manifest;
      ledger, pending, names, bodies, attempts := Ledger([], map[]), [], [], [], [];
    }

    /** Where the next artifact is staged. */
    function Target(name: Str): Path
      reads this
    {
      dir + [StagingName(|pending|, name)]
    }

    /** `stage`. A repeated hash or a name that cannot be mangled touches nothing; otherwise only the next
        staging file is written, and on success it holds the artifact. */
    method Stage(fs: FileSystem, req: StageRequest, now: int)
      returns (r: Result<StagedArtifact, StageError>, ghost written: bool)
      requires Valid() && fs.Valid() && Staged(fs.disk, dir, pending, bodies)
      modifies this`ledger, this`pending, this`names, this`bodies, this`attempts, fs
      ensures Valid() && fs.Valid() && old(fs.trace) <= fs.trace && Staged(fs.disk, dir, pending, bodies)
      ensures (ledger, r) == StageOnce(old(ledger), req, written, now)
      ensures attempts == old(attempts) + [Attempt(req, written, now)]
      ensures fs.reliable && req.name.Some? && old(Target(req.name.value)) !in old(fs.disk.dirs) ==> r.Ok?
      ensures bodies == if written then old(bodies) + [req.bytes] else old(bodies)
      ensures pending == if written then old(pending) + [pending[|old(pending)|]] else old(pending)
      ensures req.hash in old(ledger.staged) || req.name.None? ==> !written && fs.trace == old(fs.trace)
      ensures req.name.Some? ==>
                && OnlyFile(old(fs.disk), fs.disk, old(Target(req.name.value)))
                && forall i | |old(fs.trace)| <= i < |fs.trace| ::
                     OnlyFile(old(fs.disk), fs.trace[i], old(Target(req.name.value)))
    {
      written := false;
      SessionContinues(root, ledger, attempts, pending, names, bodies, req, now);
      attempts := attempts + [Attempt(req, false, now)];
      if req.hash in ledger.staged {
        return Ok(ledger.staged[req.hash]), written;
      }
      if req.name.None? {
        return Err(InvalidArtifactName), written;
      }
      var stagingName := StagingName(|pending|, req.name.value);
      ghost var d := fs.disk;
      var io := fs.Write(dir + [stagingName], req.bytes);
      WriteKeepsStaged(d, fs.disk, dir, pending, names, bodies, req.name.value);
      if !io.Done? {
        return Err(WriteFailed), written;
      }
      written := true;
      attempts := old(attempts) + [Attempt(req, true, now)];
      var artifact := StagedArtifact(req.hash, req.name.value, req.path);
      var next := PendingArtifact(root + req.path, stagingName);
      StagedGrows(fs.disk, dir, pending, bodies, next, req.bytes);
      pending, bodies, names := pending + [next], bodies + [req.bytes], names + [req.name.value];
      ledger := Ledger(ledger.entries + [EntryFor(req, now)], ledger.staged[req.hash := artifact]);
      r := Ok(artifact);
    }

    /** `commit`: merge the entries into the store's manifest and install everything. `text` serialises
        a manifest, `m` is its path. Success leaves the merged manifest in memory and on disk, and at each
        final path the bytes last staged for it; failure leaves the old manifest in memory. */
    method Commit(fs: FileSystem, m: Path, text: Manifest -> seq<byte>, now: int)
      returns (r: Result<nat, CommitError>)
      requires Valid() && fs.Valid() && Apart(dir, pending, m) && Staged(fs.disk, dir, pending, bodies)
      modifies this`manifest, fs
      ensures fs.Valid() && old(fs.trace) <= fs.trace
      ensures var merged := Merged(old(manifest), ledger.entries, now);
              var c := Cascade(old(fs.disk), dir, pending, m, text(merged));
              && WellFormed(c)
              && CommitRan(c, fs.overwrites, fs.trace, |old(fs.trace)|, fs.disk, r.Ok?)
              && (fs.reliable && Unobstructed(c) ==>
                    (r.Ok? <==> !SizeIsAnomalous(|merged.artifacts|, |c.text|)))
              && manifest == (if r.Ok? then merged else old(manifest))
      ensures r.Ok? ==> r.value == |ledger.entries| && LastBodies(fs.disk, pending, bodies)
      ensures r.Ok? && UniqueHashes(old(manifest).artifacts) ==> AllRecorded(manifest.artifacts, attempts)
    {
      var merged := MergeManifest(manifest, ledger.entries, now);
      ghost var c := Cascade(fs.disk, dir, pending, m, text(merged));
      var installed := CommitBodies(fs, c, dir, pending, m, text(merged), |merged.artifacts|, names, bodies);
      if installed.Err? { return Err(installed.error); }
      manifest := merged;
      MergedRecords(old(manifest).artifacts, attempts);
      r := Ok(|ledger.entries|);
    }
  }

  /** No later artifact goes to the same path. */
  ghost predicate IsLastAt(pending: seq<PendingArtifact>, i: nat)
    requires i < |pending|
  {
    forall j | i < j < |pending| :: pending[j].finalPath != pending[i].finalPath
  }

  ghost function Merged(prior: Manifest, pending: seq<ArtifactEntry>, now: int): Manifest {
    prior.(generatedAt := now, artifacts := Merge(prior.artifacts, pending))
  }

  /** Each hash that was staged is recorded as its first successful call said. */
  ghost predicate AllRecorded(artifacts: seq<ArtifactEntry>, attempts: seq<Attempt>) {
    forall h, i: nat | FirstSuccess(attempts, h, i) :: Records(artifacts, attempts[i])
  }

  lemma MergedRecords(prior: seq<ArtifactEntry>, attempts: seq<Attempt>)
    ensures UniqueHashes(prior) ==> AllRecorded(Merge(prior, StageAll(attempts).entries), attempts)
  {
    var entries := StageAll(attempts).entries;
    var merged := Merge(prior, entries);
    forall h, i: nat | UniqueHashes(prior) && FirstSuccess(attempts, h, i) ensures Records(merged, attempts[i]) {
      FirstSuccessIsKept(attempts, h);
      FirstSuccessIsRecorded(attempts, h, i);
      MergeContents(prior, entries);
      var k :| 0 <= k < |entries| && RecordedAs(entries[k], attempts[i]);
      assert entries[k] in merged;
      var j :| 0 <= j < |merged| && merged[j] == entries[k];
    }
  }

  /** Each final path holds the bytes last staged for it. */
  ghost predicate LastBodies(d: Disk, pending: seq<PendingArtifact>, bodies: seq<seq<byte>>)
    requires |pending| == |bodies|
  {
    forall i | 0 <= i < |pending| && IsLastAt(pending, i) :: HasBytes(d, pending[i].finalPath, bodies[i])
  }

  lemma SessionIsWellFormed(c: Cascade, names: seq<Str>, bodies: seq<seq<byte>>)
    requires Apart(c.dir, c.pending, c.m) && Numbered(c.pending, names) && Staged(c.start, c.dir, c.pending, bodies)
    ensures WellFormed(c)
  {
    NumberedAreDistinct(c.pending, names);
  }

  /** How a commit went, over the states from `n` on. */
  ghost predicate CommitRan(c: Cascade, overwrites: bool, trace: seq<Disk>, n: nat, d: Disk, ok: bool)
    requires WellFormed(c)
  {
    && AllShow(c, overwrites, trace, n)
    && if ok then Shows(c, overwrites, d, Swapped) && Exact(c, overwrites, trace, n) else Unswapped(c, overwrites, d)
  }

  method CommitBodies(fs: FileSystem, ghost c: Cascade, dir: Path, pending: seq<PendingArtifact>, m: Path,
                      text: seq<byte>, artifactCount: nat, ghost names: seq<Str>, ghost bodies: seq<seq<byte>>)
    returns (r: Result<(), CommitError>)
    requires fs.Valid() && c == Cascade(fs.disk, dir, pending, m, text) && Apart(dir, pending, m)
    requires Numbered(pending, names) && Staged(fs.disk, dir, pending, bodies)
    modifies fs
    ensures fs.Valid() && old(fs.trace) <= fs.trace && WellFormed(c)
    ensures CommitRan(c, fs.overwrites, fs.trace, |old(fs.trace)|, fs.disk, r.Ok?)
    ensures r.Ok? ==> LastBodies(fs.disk, pending, bodies)
    ensures fs.reliable && Unobstructed(c) ==> (r.Ok? <==> !SizeIsAnomalous(artifactCount, |text|))
  {
    SessionIsWellFormed(c, names, bodies);
    r := CommitStaged(fs, c, dir, pending, m, text, artifactCount);
    if r.Ok? { CommittedBodies(c, fs.overwrites, fs.disk, bodies); }
  }

  lemma CommittedBodies(c: Cascade, overwrites: bool, d: Disk, bodies: seq<seq<byte>>)
    requires Shows(c, overwrites, d, Swapped) && Staged(c.start, c.dir, c.pending, bodies)
    ensures LastBodies(d, c.pending, bodies)
  {
    forall i | 0 <= i < |c.pending| && IsLastAt(c.pending, i) ensures HasBytes(d, c.pending[i].finalPath, bodies[i]) {
      CommittedContents(c, overwrites, d, i);
    }
  }

  // ----- The manifest never names a missing or wrong file -----

  /** Which bytes count as the artifact of a hash. More than one may: the header is not hashed. */
  type Genuine = (Hash, seq<byte>) -> bool

  /** The artifact's file is there and is one of its hash. */
  ghost predicate Holds(files: map<Path, seq<byte>>, root: Path, e: ArtifactEntry, genuine: Genuine) {
    root + e.path in files && genuine(e.hash, files[root + e.path])
  }

  ghost predicate Complete(files: map<Path, seq<byte>>, root: Path, artifacts: seq<ArtifactEntry>,
                           genuine: Genuine)
  {
    forall e | e in artifacts :: Holds(files, root, e, genuine)
  }

  /** A path belongs to one hash. */
  ghost predicate PathsByHash(prior: seq<ArtifactEntry>, entries: seq<ArtifactEntry>) {
    forall e, f | e in prior + entries && f in prior + entries && e.path == f.path :: e.hash == f.hash
  }

  /** The cascade installs the entries, over artifacts that are no target but their own. */
  ghost predicate Installs(c: Cascade, root: Path, prior: seq<ArtifactEntry>, entries: seq<ArtifactEntry>,
                           genuine: Genuine)
  {
    && WellFormed(c) && |c.pending| == |entries|
    && (forall i | 0 <= i < |entries| ::
          && c.pending[i].finalPath == root + entries[i].path
          && genuine(entries[i].hash, c.start.files[Src(c.dir, c.pending[i])]))
    && (forall e | e in prior ::
          !Under(root + e.path, c.dir) && root + e.path != c.m && root + e.path != StagedManifest(c.m))
  }

  /** The last artifact installed at the entry's path, if any, has bytes that are the entry's hash's too. */
  ghost predicate Undisturbed(c: Cascade, root: Path, genuine: Genuine, k: nat, e: ArtifactEntry)
    requires WellFormed(c)
  {
    forall i: nat | LastTo(c, k, root + e.path, i) :: genuine(e.hash, c.start.files[Src(c.dir, c.pending[i])])
  }

  lemma {:induction false} LastExists(c: Cascade, k: nat, p: Path, j: nat) returns (i: nat)
    requires j < k <= |c.pending| && c.pending[j].finalPath == p
    ensures LastTo(c, k, p, i)
    decreases k - j
  {
    if h :| j < h < k && c.pending[h].finalPath == p {
      i := LastExists(c, k, p, h);
    } else {
      i := j;
    }
  }

  /** Installing loses no artifact's file, and leaves one whole exactly when it is undisturbed. */
  lemma InstalledHoldsIff(c: Cascade, root: Path, prior: seq<ArtifactEntry>, entries: seq<ArtifactEntry>,
                          genuine: Genuine, k: nat, e: ArtifactEntry)
    requires Installs(c, root, prior, entries, genuine) && Complete(c.start.files, root, prior, genuine)
    requires k <= |entries| && (e in prior || e in entries[..k])
    ensures root + e.path in Installed(c, k)
    ensures Holds(Installed(c, k), root, e, genuine) <==> Undisturbed(c, root, genuine, k, e)
  {
    var p := root + e.path;
    if j :| 0 <= j < k && c.pending[j].finalPath == p {
      var i := LastExists(c, k, p, j);
      LastHoldsIff(c, root, genuine, k, e, i);
    } else {
      assert e in prior;
      StartHolds(c, root, prior, entries, genuine, e);
      InstalledOther(c, k, p);
    }
  }

  lemma LastHoldsIff(c: Cascade, root: Path, genuine: Genuine, k: nat, e: ArtifactEntry, i: nat)
    requires WellFormed(c) && k <= |c.pending| && LastTo(c, k, root + e.path, i)
    ensures root + e.path in Installed(c, k)
    ensures Holds(Installed(c, k), root, e, genuine) <==> Undisturbed(c, root, genuine, k, e)
  {
    InstalledLast(c, k, i);
    forall j: nat | LastTo(c, k, root + e.path, j) ensures j == i {
    }
  }

  lemma StartHolds(c: Cascade, root: Path, prior: seq<ArtifactEntry>, entries: seq<ArtifactEntry>,
                   genuine: Genuine, e: ArtifactEntry)
    requires Installs(c, root, prior, entries, genuine) && Complete(c.start.files, root, prior, genuine) && e in prior
    ensures Holds(View(c, c.start), root, e, genuine)
  {
    assert Holds(c.start.files, root, e, genuine);
  }

  /** The entries that count at a point: the old manifest's until the artifacts are in place, then the new one's. */
  ghost function Named(prior: seq<ArtifactEntry>, entries: seq<ArtifactEntry>, pt: Point): seq<ArtifactEntry> {
    if pt.Artifacts? || pt.ArtifactGap? then prior else Merge(prior, entries)
  }

  ghost predicate AtGap(c: Cascade, root: Path, pt: Point, e: ArtifactEntry) {
    pt.ArtifactGap? && pt.k < |c.pending| && root + e.path == c.pending[pt.k].finalPath
  }

  /** Whatever point a commit dies at: if the old manifest's artifacts were all there and whole, then each
      artifact the manifest on disk names is there, but for the target missing at a gap; and it is whole if and
      only if the last artifact installed at its path, if any, has bytes of its hash. */
  lemma CommitHoldsIff(c: Cascade, overwrites: bool, d: Disk, pt: Point, root: Path, prior: seq<ArtifactEntry>,
                       entries: seq<ArtifactEntry>, genuine: Genuine, e: ArtifactEntry)
    requires Shows(c, overwrites, d, pt) && Installs(c, root, prior, entries, genuine)
    requires UniqueHashes(prior) && UniqueHashes(entries) && Complete(c.start.files, root, prior, genuine)
    requires e in Named(prior, entries, pt)
    ensures root + e.path in d.files <==> !AtGap(c, root, pt, e)
    ensures Holds(d.files, root, e, genuine)
       <==> !AtGap(c, root, pt, e) && Undisturbed(c, root, genuine, Count(c, pt), e)
  {
    MergeContents(prior, entries);
    assert entries[..|entries|] == entries;
    InstalledHoldsIff(c, root, prior, entries, genuine, Count(c, pt), e);
    if e in entries && e !in prior {
      var i :| 0 <= i < |entries| && entries[i] == e;
      assert c.pending[i].finalPath == root + e.path;
    }
    PointHolds(c, overwrites, d, pt, root, e, genuine);
  }

  /** When a path belongs to one hash, every artifact named is whole. */
  lemma CommitLeavesManifestComplete(c: Cascade, overwrites: bool, d: Disk, pt: Point, root: Path,
                                     prior: seq<ArtifactEntry>, entries: seq<ArtifactEntry>, genuine: Genuine)
    requires Shows(c, overwrites, d, pt) && Installs(c, root, prior, entries, genuine) && PathsByHash(prior, entries)
    requires UniqueHashes(prior) && UniqueHashes(entries) && Complete(c.start.files, root, prior, genuine)
    ensures forall e | e in Named(prior, entries, pt) :: Holds(d.files, root, e, genuine) <==> !AtGap(c, root, pt, e)
  {
    MergeContents(prior, entries);
    forall e | e in Named(prior, entries, pt)
      ensures Holds(d.files, root, e, genuine) <==> !AtGap(c, root, pt, e)
    {
      CommitHoldsIff(c, overwrites, d, pt, root, prior, entries, genuine, e);
      forall i: nat | LastTo(c, Count(c, pt), root + e.path, i) ensures entries[i].hash == e.hash {
        JoinIsInjective(root, e.path, entries[i].path);
        assert e in prior + entries && entries[i] in prior + entries;
      }
    }
  }

  /** A new artifact with bytes of another hash at a kept artifact's path: after the commit the kept one is
      not whole. */
  lemma SharedPathIsOverwritten(c: Cascade, overwrites: bool, d: Disk, root: Path, prior: seq<ArtifactEntry>,
                                e: ArtifactEntry, f: ArtifactEntry, genuine: Genuine)
    requires Shows(c, overwrites, d, Swapped) && Installs(c, root, prior, [f], genuine) && UniqueHashes(prior)
    requires Complete(c.start.files, root, prior, genuine)
    requires e in prior && e.hash != f.hash && e.path == f.path
    requires !genuine(e.hash, c.start.files[Src(c.dir, c.pending[0])])
    ensures e in Merge(prior, [f]) && !Holds(d.files, root, e, genuine)
  {
    MergeContents(prior, [f]);
    assert LastTo(c, 1, root + e.path, 0);
    CommitHoldsIff(c, overwrites, d, Swapped, root, prior, [f], genuine, e);
  }

  lemma PointHolds(c: Cascade, overwrites: bool, d: Disk, pt: Point, root: Path, e: ArtifactEntry,
                   genuine: Genuine)
    requires Shows(c, overwrites, d, pt) && root + e.path in Installed(c, Count(c, pt))
    requires !Under(root + e.path, c.dir) && root + e.path != c.m && root + e.path != StagedManifest(c.m)
    ensures root + e.path in d.files <==> !AtGap(c, root, pt, e)
    ensures Holds(d.files, root, e, genuine)
       <==> !AtGap(c, root, pt, e) && Holds(Installed(c, Count(c, pt)), root, e, genuine)
  {
    assert root + e.path in d.files <==> root + e.path in View(c, d);
  }
}
