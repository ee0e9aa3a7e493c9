/** The project and overlay lifecycle of the daemon (`edda-daemon/src/daemon.rs`, `state.rs`, `document.rs`).

    Every method below is one critical section of the daemon's lock. `open_project` has two, with the build
    between them, so any sequence of calls is an interleaving of clients. The ghost `log` records what took
    effect; it is what the results are stated about. */
module Daemons {
  import opened Bytes

  /** A parse, by its identity. */
  type Ast = nat
  type Graph = seq<(Str, Ast)>

  datatype Document = Document(version: nat, text: Str, ast: Ast)

  /** `graph` is absent when import resolution did not finish. */
  datatype Project = Project(root: Str, graph: Option<Graph>, documents: map<Str, Document>)

  datatype DaemonError =
    | ProjectAlreadyOpen
    | NoProjectOpen
    | DocumentAlreadyOpen(key: Str)
    | DocumentNotOpen(key: Str)
    | DocumentVersionStale(key: Str, stored: nat, attempted: nat)

  datatype Event =
    | Opened(root: Str, graph: Option<Graph>)
    | Closed
    | Edited(key: Str, version: nat, text: Str)
    | Dropped(key: Str)

  type Log = seq<Event>

  // ----- Reading the log -----

  ghost function Session(log: Log): Option<Event> {
    if log == [] then None
    else
      var last := log[|log| - 1];
      if last.Opened? then Some(last) else if last.Closed? then None else Session(log[..|log| - 1])
  }

  /** The edit in force for `key`. */
  ghost function Latest(log: Log, key: Str): (r: Option<Event>)
    ensures r.Some? ==> r.value.Edited?
  {
    if log == [] then None
    else
      match log[|log| - 1]
      case Opened(_, _) => None
      case Closed => None
      case Edited(k, _, _) => if k == key then Some(log[|log| - 1]) else Latest(log[..|log| - 1], key)
      case Dropped(k) => if k == key then None else Latest(log[..|log| - 1], key)
  }

  ghost predicate Resets(e: Event, key: Str) {
    e.Opened? || e.Closed? || (e.Dropped? && e.key == key)
  }

  /** From `i` up to the end nothing ends the overlay of `key`. */
  ghost predicate Unbroken(log: Log, i: nat, key: Str) {
    forall h | i < h < |log| :: !Resets(log[h], key)
  }

  /** A project is opened only after the one before it was closed. */
  ghost predicate OpensAlternate(log: Log) {
    forall i, j | 0 <= i < j < |log| && log[i].Opened? && log[j].Opened? :: ClosedBetween(log, i, j)
  }

  ghost predicate ClosedBetween(log: Log, i: nat, j: nat) {
    exists h :: i < h < j && h < |log| && log[h].Closed?
  }

  /** While an overlay stays open every edit has a larger version than the edits before it. */
  ghost predicate VersionsIncrease(log: Log) {
    forall i, j | 0 <= i < j < |log| && log[i].Edited? && log[j].Edited? && log[i].key == log[j].key
                  && Unbroken(log[..j], i, log[i].key) ::
      log[i].version < log[j].version
  }

  // ----- Facts about logs -----

  lemma {:induction false} OpenedIsClosed(log: Log, i: nat)
    requires i < |log| && log[i].Opened? && Session(log).None?
    ensures ClosedBetween(log, i, |log|)
    decreases |log|
  {
    var n := |log| - 1;
    if log[n].Closed? {
      assert i < n < |log|;
    } else {
      OpenedIsClosed(log[..n], i);
      var h :| i < h < n && log[..n][h].Closed?;
      assert log[h].Closed?;
    }
  }

  /** An overlay that was edited and not ended is in force, at a version no smaller. */
  lemma {:induction false} LatestIsLargest(log: Log, i: nat)
    requires VersionsIncrease(log) && i < |log| && log[i].Edited? && Unbroken(log, i, log[i].key)
    ensures Latest(log, log[i].key).Some? && log[i].version <= Latest(log, log[i].key).value.version
    decreases |log|
  {
    var n, key := |log| - 1, log[i].key;
    if i < n {
      assert !Resets(log[n], key);
      var less := log[..n];
      assert forall h | i < h < n :: !Resets(log[h], key);
      if log[n].Edited? && log[n].key == key {
        assert Unbroken(less, i, key);
      } else {
        VersionsOfPrefix(log, n);
        LatestIsLargest(less, i);
      }
    }
  }

  lemma VersionsOfPrefix(log: Log, n: nat)
    requires VersionsIncrease(log) && n <= |log|
    ensures VersionsIncrease(log[..n])
  {
    var less := log[..n];
    forall i, j | 0 <= i < j < |less| && less[i].Edited? && less[j].Edited? && less[i].key == less[j].key
                  && Unbroken(less[..j], i, less[i].key)
      ensures less[i].version < less[j].version
    {
      assert less[..j] == log[..j] && less[i] == log[i] && less[j] == log[j];
    }
  }

  lemma OpensExtend(log: Log, e: Event)
    requires OpensAlternate(log) && (e.Opened? ==> Session(log).None?)
    ensures OpensAlternate(log + [e])
  {
    var log' := log + [e];
    forall i, j | 0 <= i < j < |log'| && log'[i].Opened? && log'[j].Opened? ensures ClosedBetween(log', i, j) {
      if j == |log| {
        OpenedIsClosed(log, i);
        var h :| i < h < |log| && log[h].Closed?;
        assert log'[h].Closed?;
      } else {
        assert ClosedBetween(log, i, j);
        var h :| i < h < j && h < |log| && log[h].Closed?;
        assert log'[h].Closed?;
      }
    }
  }

  lemma VersionsExtend(log: Log, e: Event)
    requires VersionsIncrease(log)
    requires e.Edited? && Latest(log, e.key).Some? ==> Latest(log, e.key).value.version < e.version
    ensures VersionsIncrease(log + [e])
  {
    var log' := log + [e];
    forall i, j | 0 <= i < j < |log'| && log'[i].Edited? && log'[j].Edited? && log'[i].key == log'[j].key
                  && Unbroken(log'[..j], i, log'[i].key)
      ensures log'[i].version < log'[j].version
    {
      assert log'[..j] == log[..j] && log'[i] == log[i];
      if j == |log| {
        assert log[..j] == log;
        LatestIsLargest(log, i);
      } else {
        assert log'[j] == log[j];
      }
    }
  }

  // ----- The daemon -----

  class Daemon {
    var state: Option<Project>
    ghost var log: Log
    /** Path canonicalisation and the parser, taken as fixed functions. */
    const normalize: Str -> Str
    const parse: (Str, Str) -> Ast

    /** The state holds what the log says took effect. */
    ghost predicate Valid()
      reads this
    {
      && OpensAlternate(log) && VersionsIncrease(log)
      && Agrees(state, log, parse)
    }

    constructor (normalize: Str -> Str, parse: (Str, Str) -> Ast)
      ensures Valid() && state == None && log == []
      ensures this.normalize == normalize && this.parse == parse
    {
      state, log := None, [];
      this.normalize, this.parse := normalize, parse;
    }

    /** The first critical section of `open_project`. */
    method BeginOpen() returns (r: Result<(), DaemonError>)
      requires Valid()
      ensures r == if Session(log).Some? then Err(ProjectAlreadyOpen) else Ok(())
    {
      r := if state.Some? then Err(ProjectAlreadyOpen) else Ok(());
    }

    /** The second, with the project built in between: it checks again. */
    method FinishOpen(root: Str, graph: Option<Graph>) returns (r: Result<(), DaemonError>)
      requires Valid()
      modifies this
      ensures Valid()
      ensures r == if old(Session(log)).Some? then Err(ProjectAlreadyOpen) else Ok(())
      ensures log == if r.Ok? then old(log) + [Opened(root, graph)] else old(log)
      ensures r.Err? ==> state == old(state)
    {
      if state.Some? {
        return Err(ProjectAlreadyOpen);
      }
      OpensExtend(log, Opened(root, graph));
      VersionsExtend(log, Opened(root, graph));
      log := log + [Opened(root, graph)];
      state := Some(Project(root, graph, map[]));
      r := Ok(());
    }

    method CloseProject()
      requires Valid()
      modifies this
      ensures Valid() && state == None && log == old(log) + [Closed]
    {
      OpensExtend(log, Closed);
      VersionsExtend(log, Closed);
      log := log + [Closed];
      state := None;
    }

    method OpenDocument(path: Str, version: nat, text: Str) returns (r: Result<nat, DaemonError>)
      requires Valid()
      modifies this
      ensures Valid()
      ensures var key := normalize(path);
        && r == (if old(Session(log)).None? then Err(NoProjectOpen)
                 else if old(Latest(log, key)).Some? then Err(DocumentAlreadyOpen(key)) else Ok(version))
        && (r.Ok? ==> log == old(log) + [Edited(key, version, text)])
      ensures r.Err? ==> state == old(state) && log == old(log)
    {
      var key := normalize(path);
      if state.None? {
        return Err(NoProjectOpen);
      }
      if key in state.value.documents {
        return Err(DocumentAlreadyOpen(key));
      }
      Record(key, version, text);
      r := Ok(version);
    }

    method ApplyChange(path: Str, version: nat, text: Str) returns (r: Result<nat, DaemonError>)
      requires Valid()
      modifies this
      ensures Valid()
      ensures var key := normalize(path); var latest := old(Latest(log, key));
        && r == (if old(Session(log)).None? then Err(NoProjectOpen)
                 else if latest.None? then Err(DocumentNotOpen(key))
                 else if version <= latest.value.version
                 then Err(DocumentVersionStale(key, latest.value.version, version)) else Ok(version))
        && (r.Ok? ==> log == old(log) + [Edited(key, version, text)])
      ensures r.Err? ==> state == old(state) && log == old(log)
    {
      var key := normalize(path);
      if state.None? {
        return Err(NoProjectOpen);
      }
      if key !in state.value.documents {
        return Err(DocumentNotOpen(key));
      }
      var stored := state.value.documents[key].version;
      if version <= stored {
        return Err(DocumentVersionStale(key, stored, version));
      }
      Record(key, version, text);
      r := Ok(version);
    }

    /** Parses and stores the text, as both document calls do once they have accepted it. */
    method Record(key: Str, version: nat, text: Str)
      requires Valid() && state.Some?
      requires Latest(log, key).Some? ==> Latest(log, key).value.version < version
      modifies this
      ensures Valid() && log == old(log) + [Edited(key, version, text)]
    {
      var ast := parse(key, text);
      var documents := state.value.documents;
      VersionsExtend(log, Edited(key, version, text));
      OpensExtend(log, Edited(key, version, text));
      AgreesEdited(state.value, log, parse, key, version, text);
      state := Some(state.value.(documents := documents[key := Document(version, text, ast)]));
      log := log + [Edited(key, version, text)];
    }

    method CloseDocument(path: Str) returns (r: Result<(), DaemonError>)
      requires Valid()
      modifies this
      ensures Valid()
      ensures r == if old(Session(log)).Some? then Ok(()) else Err(NoProjectOpen)
      ensures log == if r.Ok? then old(log) + [Dropped(normalize(path))] else old(log)
      ensures r.Err? ==> state == old(state)
    {
      var key := normalize(path);
      if state.None? {
        return Err(NoProjectOpen);
      }
      VersionsExtend(log, Dropped(key));
      OpensExtend(log, Dropped(key));
      AgreesDropped(state.value, log, parse, key);
      state := Some(state.value.(documents := state.value.documents - {key}));
      log := log + [Dropped(key)];
      r := Ok(());
    }

    /** `ast_for_path` under the read lock: the parse of the edit in force, or else the graph's tree. */
    method AstForPath(path: Str) returns (r: Result<Option<Ast>, DaemonError>)
      requires Valid()
      ensures r.Err? <==> Session(log).None?
      ensures r.Ok? ==>
        var key := normalize(path);
        r.value == match Latest(log, key)
                   case Some(e) => Some(parse(key, e.text))
                   case None => if Session(log).value.graph.None? then None
                                else InGraph(Session(log).value.graph.value, key, normalize)
    {
      if state.None? {
        return Err(NoProjectOpen);
      }
      var key := normalize(path);
      if key in state.value.documents {
        return Ok(Some(state.value.documents[key].ast));
      }
      if state.value.graph.None? {
        return Ok(None);
      }
      var graph := state.value.graph.value;
      assert graph[0..] == graph;
      for i := 0 to |graph|
        invariant InGraph(graph, key, normalize) == InGraph(graph[i..], key, normalize)
      {
        assert graph[i..][1..] == graph[i + 1..];
        if normalize(graph[i].0) == key {
          return Ok(Some(graph[i].1));
        }
      }
      r := Ok(None);
    }
  }

  /** The first module at the path. */
  function InGraph(graph: Graph, key: Str, normalize: Str -> Str): Option<Ast> {
    if graph == [] then None
    else if normalize(graph[0].0) == key then Some(graph[0].1)
    else InGraph(graph[1..], key, normalize)
  }

  lemma {:induction false} InGraphIsFirst(graph: Graph, key: Str, normalize: Str -> Str)
    ensures match InGraph(graph, key, normalize)
      case None => forall i | 0 <= i < |graph| :: normalize(graph[i].0) != key
      case Some(ast) =>
        exists i :: && 0 <= i < |graph| && normalize(graph[i].0) == key && graph[i].1 == ast
                    && forall j | 0 <= j < i :: normalize(graph[j].0) != key
  {
    if graph != [] && normalize(graph[0].0) != key {
      var rest := graph[1..];
      InGraphIsFirst(rest, key, normalize);
      assert forall i | 0 < i < |graph| :: graph[i] == rest[i - 1];
      if InGraph(rest, key, normalize).Some? {
        var i :| 0 <= i < |rest| && normalize(rest[i].0) == key && rest[i].1 == InGraph(rest, key, normalize).value
                 && forall j | 0 <= j < i :: normalize(rest[j].0) != key;
        assert graph[i + 1] == rest[i];
      }
    }
  }

  ghost predicate Overlay(doc: Document, key: Str, e: Event, parse: (Str, Str) -> Ast) {
    e.Edited? && doc.version == e.version && doc.text == e.text && doc.ast == parse(key, e.text)
  }

  ghost predicate Agrees(state: Option<Project>, log: Log, parse: (Str, Str) -> Ast) {
    match state
    case None => Session(log).None?
    case Some(p) => Session(log) == Some(Opened(p.root, p.graph)) && Overlays(p.documents, log, parse)
  }

  ghost predicate Overlays(documents: map<Str, Document>, log: Log, parse: (Str, Str) -> Ast) {
    forall key: Str ::
      && (key in documents <==> Latest(log, key).Some?)
      && (key in documents ==> Overlay(documents[key], key, Latest(log, key).value, parse))
  }

  lemma AgreesEdited(p: Project, log: Log, parse: (Str, Str) -> Ast, key: Str, version: nat, text: Str)
    requires Agrees(Some(p), log, parse)
    ensures var docs := p.documents[key := Document(version, text, parse(key, text))];
            Agrees(Some(p.(documents := docs)), log + [Edited(key, version, text)], parse)
  {
    var log' := log + [Edited(key, version, text)];
    assert log'[..|log|] == log;
  }

  lemma AgreesDropped(p: Project, log: Log, parse: (Str, Str) -> Ast, key: Str)
    requires Agrees(Some(p), log, parse)
    ensures Agrees(Some(p.(documents := p.documents - {key})), log + [Dropped(key)], parse)
  {
    var log' := log + [Dropped(key)];
    assert log'[..|log|] == log;
  }
}
