/**
 `apply_config` of the control surface inside the postfix container: validate, dry-run
 every map, install main.cf and master.cf, update the live maps one by one, and restart.
 The outcome of every external command and file operation is a parameter.
 */
module ControlSurface {
  import opened Prelude
  import opened ConfigMaps

  datatype MapName = SenderLogin | SenderRelayhost | SaslPasswd | SenderTransport | TlsPolicy

  /** The order of the request; only activation departs from it. */
  const MAP_NAMES: seq<MapName> := [SenderLogin, SenderRelayhost, SaslPasswd, SenderTransport, TlsPolicy]

  function Content(maps: Maps, name: MapName): string {
    match name
    case SenderLogin => maps.login
    case SenderRelayhost => maps.relayhost
    case SaslPasswd => maps.passwords
    case SenderTransport => maps.transport
    case TlsPolicy => maps.policy
  }

  /** A live lookup database, and which call of `apply_config` built it. */
  datatype Database = Database(content: string, generation: nat)

  type LiveMaps = map<MapName, Database>

  /** The two configuration files, on disk or as loaded by a running Postfix. */
  datatype ConfigFiles = ConfigFiles(mainCf: Option<string>, masterCf: Option<string>)

  /** What Postfix is affected by. */
  datatype Host = Host(files: ConfigFiles, live: LiveMaps, running: bool, loaded: ConfigFiles)

  datatype Request = Request(mainCf: string, masterCf: string, maps: Maps, reload: bool)

  /** Which external steps go wrong. A map can fail to be written, to be built, or to get
      its permissions after it was built; the two-file install can fail before the first
      file or between the two. */
  datatype Outcomes = Outcomes(
    mainValid: bool,
    masterValid: bool,
    stagingFails: set<MapName>,
    installFailsAt: Option<nat>,
    writeFails: set<MapName>,
    postmapFails: set<MapName>,
    chmodFails: set<MapName>,
    stopWorks: bool,
    startWorks: bool,
    rollbackStartWorks: bool)

  datatype Reply = Reply(success: bool, reloaded: bool)

  /** `sorted(maps, key=lambda name: name == "sender_login")`, a stable sort. */
  function ActivationOrder(names: seq<MapName>): seq<MapName> {
    Select(names, false) + Select(names, true)
  }

  function Select(names: seq<MapName>, login: bool): seq<MapName> {
    if names == [] then []
    else (if (names[0] == SenderLogin) == login then [names[0]] else []) + Select(names[1..], login)
  }

  lemma LoginComesLast()
    ensures ActivationOrder(MAP_NAMES) == [SenderRelayhost, SaslPasswd, SenderTransport, TlsPolicy, SenderLogin]
    ensures forall name: MapName :: name in MAP_NAMES && name in ActivationOrder(MAP_NAMES)
  {
    forall name: MapName ensures name in MAP_NAMES && name in [SenderRelayhost, SaslPasswd, SenderTransport, TlsPolicy, SenderLogin] {
      match name
      case SenderLogin => assert MAP_NAMES[0] == name;
      case SenderRelayhost => assert MAP_NAMES[1] == name;
      case SaslPasswd => assert MAP_NAMES[2] == name;
      case SenderTransport => assert MAP_NAMES[3] == name;
      case TlsPolicy => assert MAP_NAMES[4] == name;
    }
    assert MAP_NAMES[1..] == [SenderRelayhost, SaslPasswd, SenderTransport, TlsPolicy];
    assert MAP_NAMES[1..][1..] == [SaslPasswd, SenderTransport, TlsPolicy];
    assert MAP_NAMES[1..][1..][1..] == [SenderTransport, TlsPolicy];
    assert MAP_NAMES[1..][1..][1..][1..] == [TlsPolicy];
    assert MAP_NAMES[1..][1..][1..][1..][1..] == [];
  }

  lemma EveryMapHasItsTurn()
    ensures forall name: MapName :: name in MAP_NAMES && name in ActivationOrder(MAP_NAMES)
  {
    hide ActivationOrder;
    LoginComesLast();
  }

  // -------------------------------------------------- the outcome, in closed form

  /** A map is activated up to its database being rebuilt. */
  predicate Builds(o: Outcomes, name: MapName) {
    name !in o.writeFails && name !in o.postmapFails
  }

  predicate ActivatesCleanly(o: Outcomes, name: MapName) {
    Builds(o, name) && name !in o.chmodFails
  }

  predicate AllActivate(o: Outcomes) {
    forall name :: name in MAP_NAMES ==> ActivatesCleanly(o, name)
  }

  /** The live maps once the given maps, in that order, have been activated as far as possible. */
  function Activated(live: LiveMaps, names: seq<MapName>, maps: Maps, generation: nat, o: Outcomes): LiveMaps
    decreases |names|
  {
    if names == [] || !Builds(o, names[0]) then live
    else
      var live' := live[names[0] := Database(Content(maps, names[0]), generation)];
      if names[0] in o.chmodFails then live' else Activated(live', names[1..], maps, generation, o)
  }

  function Databases(names: seq<MapName>, maps: Maps, generation: nat): LiveMaps {
    map name | name in names :: Database(Content(maps, name), generation)
  }

  function Rebuilt(live: LiveMaps, maps: Maps, generation: nat): LiveMaps {
    live + Databases(MAP_NAMES, maps, generation)
  }

  function Restored(files: ConfigFiles, previous: ConfigFiles): ConfigFiles {
    ConfigFiles(if previous.mainCf.Some? then previous.mainCf else files.mainCf,
                if previous.masterCf.Some? then previous.masterCf else files.masterCf)
  }

  /** `postfix start` refuses to start a second instance. */
  function Started(host: Host, works: bool): Host {
    if host.running || !works then host else host.(running := true, loaded := host.files)
  }

  function Stopped(host: Host, works: bool): Host {
    host.(running := host.running && !works)
  }

  predicate DryRunBuilds(o: Outcomes) {
    forall name :: name in MAP_NAMES ==> name !in o.stagingFails
  }

  predicate Staged(o: Outcomes) {
    o.mainValid && o.masterValid && DryRunBuilds(o)
  }

  predicate InstallsBoth(o: Outcomes) {
    o.installFailsAt.None? || o.installFailsAt.value >= 2
  }

  /** Stopping and starting with the files installed, or going back to the previous ones. */
  function Restarted(host: Host, previous: ConfigFiles, o: Outcomes): (Host, Reply) {
    var started := Started(Stopped(host, o.stopWorks), o.startWorks);
    if !Stopped(host, o.stopWorks).running && o.startWorks then (started, Reply(true, true))
    else if previous == ConfigFiles(None, None) then (started, Reply(false, false))
    else (Started(started.(files := Restored(host.files, previous)), o.rollbackStartWorks), Reply(false, false))
  }

  /** The whole call, as one state change. */
  function Applied(host: Host, request: Request, generation: nat, o: Outcomes): (Host, Reply) {
    var failure := Reply(false, false);
    if !Staged(o) then (host, failure)
    else
      var previous := host.files;
      var files := ConfigFiles(Some(request.mainCf), Some(request.masterCf));
      if o.installFailsAt == Some(0) then (host, failure)
      else if o.installFailsAt == Some(1) then (host.(files := host.files.(mainCf := Some(request.mainCf))), failure)
      else
        var live := Activated(host.live, ActivationOrder(MAP_NAMES), request.maps, generation, o);
        if !AllActivate(o) then (host.(files := Restored(files, previous), live := live), failure)
        else if !request.reload then (host.(files := files, live := live), Reply(true, false))
        else Restarted(host.(files := files, live := live), previous, o)
  }

  // --------------------------------------------------- what the call promises

  lemma {:induction false} ActivatedAll(live: LiveMaps, names: seq<MapName>, maps: Maps, generation: nat, o: Outcomes)
    requires forall name :: name in names ==> ActivatesCleanly(o, name)
    ensures Activated(live, names, maps, generation, o)
         == live + Databases(names, maps, generation)
    decreases |names|
  {
    hide Content, Databases;
    DatabasesOfMore(names, maps, generation);
    if names == [] {
      assert live + map[] == live;
    } else {
      assert names[0] in names;
      var database := Database(Content(maps, names[0]), generation);
      ActivatedAll(live[names[0] := database], names[1..], maps, generation, o);
      assert live[names[0] := database] + Databases(names[1..], maps, generation)
          == live + (map[names[0] := database] + Databases(names[1..], maps, generation));
    }
  }

  lemma DatabasesOfMore(names: seq<MapName>, maps: Maps, generation: nat)
    ensures Databases(names, maps, generation) ==
              if names == [] then map[]
              else map[names[0] := Database(Content(maps, names[0]), generation)] + Databases(names[1..], maps, generation)
  {
    hide Content;
    assert names != [] ==> names == [names[0]] + names[1..];
  }

  /** A rejected configuration, or a map that does not build in the dry run, changes nothing at all. */
  lemma RejectionChangesNothing(host: Host, request: Request, generation: nat, o: Outcomes)
    requires !Staged(o)
    ensures Applied(host, request, generation, o) == (host, Reply(false, false))
  {
  }

  /** Success means: the requested files and all five requested maps are live, and if a
      restart was asked for, Postfix runs with exactly those files. */
  lemma SuccessInstallsEverything(host: Host, request: Request, generation: nat, o: Outcomes)
    requires Applied(host, request, generation, o).1.success
    ensures var host' := Applied(host, request, generation, o).0;
            && host'.files == ConfigFiles(Some(request.mainCf), Some(request.masterCf))
            && host'.live == Rebuilt(host.live, request.maps, generation)
            && (request.reload ==> host'.running && host'.loaded == host'.files)
            && (!request.reload ==> host'.running == host.running && host'.loaded == host.loaded)
  {
    hide Activated, ActivationOrder, AllActivate, DryRunBuilds, Rebuilt;
    AllMapsAreRebuilt(host.live, request.maps, generation, o);
  }

  lemma OrderDoesNotMatter(names: seq<MapName>, names': seq<MapName>, maps: Maps, generation: nat)
    requires forall name: MapName :: name in names <==> name in names'
    ensures Databases(names, maps, generation) == Databases(names', maps, generation)
  {
    hide Content;
  }

  lemma AllMapsAreRebuilt(live: LiveMaps, maps: Maps, generation: nat, o: Outcomes)
    ensures AllActivate(o) ==> Activated(live, ActivationOrder(MAP_NAMES), maps, generation, o) == Rebuilt(live, maps, generation)
  {
    if AllActivate(o) {
      hide Activated, ActivationOrder, ActivatesCleanly, Databases;
      EveryMapHasItsTurn();
      ActivatedAll(live, ActivationOrder(MAP_NAMES), maps, generation, o);
      OrderDoesNotMatter(ActivationOrder(MAP_NAMES), MAP_NAMES, maps, generation);
    }
  }

  /** A reported failure leaves both files as they were, if both existed, unless the
      install broke off between them; and if Postfix still runs, it runs either what it
      ran before or what is on disk. */
  lemma FailureRestoresFiles(host: Host, request: Request, generation: nat, o: Outcomes)
    requires host.files.mainCf.Some? && host.files.masterCf.Some?
    requires !Applied(host, request, generation, o).1.success
    ensures var host' := Applied(host, request, generation, o).0;
            && (o.installFailsAt != Some(1) ==> host'.files == host.files)
            && (host'.running ==> (host.running && host'.loaded == host.loaded) || host'.loaded == host.files)
  {
  }

  /** ... and the exceptions are real: the install does not undo its own first half, and a
      file that did not exist is not removed again. Exactly when a reported failure leaves
      both files as they were: nothing was installed yet, or only the first file and it was
      the same, or both files existed before. */
  lemma FailureKeepsFilesIff(host: Host, request: Request, generation: nat, o: Outcomes)
    requires !Applied(host, request, generation, o).1.success
    ensures Applied(host, request, generation, o).0.files == host.files <==>
            || !Staged(o) || o.installFailsAt == Some(0)
            || (o.installFailsAt == Some(1) && host.files.mainCf == Some(request.mainCf))
            || (InstallsBoth(o) && host.files.mainCf.Some? && host.files.masterCf.Some?)
  {
    hide Activated, ActivationOrder, AllActivate, DryRunBuilds;
  }

  /** Inputs: an install that breaks off between the files, and one on first boot after
      which Postfix does not start. */
  lemma FailuresThatKeepNewFiles(request: Request, live: LiveMaps)
    requires request.mainCf != "old" && request.reload
    ensures var well := Outcomes(true, true, {}, None, {}, {}, {}, true, false, true);
            var host := Host(ConfigFiles(Some("old"), Some("old")), live, true, ConfigFiles(Some("old"), Some("old")));
            var (host', reply) := Applied(host, request, 1, well.(installFailsAt := Some(1)));
            !reply.success && host'.files == ConfigFiles(Some(request.mainCf), Some("old"))
    ensures var well := Outcomes(true, true, {}, None, {}, {}, {}, true, false, true);
            var host := Host(ConfigFiles(None, None), live, false, ConfigFiles(None, None));
            var (host', reply) := Applied(host, request, 1, well);
            !reply.success && host'.files == ConfigFiles(Some(request.mainCf), Some(request.masterCf)) && !host'.running
  {
    hide Activated, ActivationOrder;
  }

  /** When a request succeeds, and when it says that Postfix was restarted. */
  lemma SucceedsIff(host: Host, request: Request, generation: nat, o: Outcomes)
    ensures var reply := Applied(host, request, generation, o).1;
            && (reply.success <==>
                  && Staged(o) && InstallsBoth(o) && AllActivate(o)
                  && (request.reload ==> (host.running ==> o.stopWorks) && o.startWorks))
            && (reply.reloaded <==> reply.success && request.reload)
  {
    hide Activated, ActivationOrder, AllActivate, DryRunBuilds;
  }

  /** A request that does not get as far as a restart leaves what runs as it was. */
  lemma NoRestartNoChange(host: Host, request: Request, generation: nat, o: Outcomes)
    requires !(request.reload && Staged(o) && InstallsBoth(o) && AllActivate(o))
    ensures var host' := Applied(host, request, generation, o).0;
            host'.running == host.running && host'.loaded == host.loaded
  {
    hide Activated, ActivationOrder, AllActivate, DryRunBuilds;
  }

  /** After a failed restart Postfix runs if it could not be stopped, with what it had
      loaded, or else if there were previous files and it starts with them again. */
  lemma RunsAfterFailedRestart(host: Host, request: Request, generation: nat, o: Outcomes)
    requires request.reload && Staged(o) && InstallsBoth(o) && AllActivate(o) && !Applied(host, request, generation, o).1.success
    ensures var host' := Applied(host, request, generation, o).0;
            var unstopped := host.running && !o.stopWorks;
            && (host'.running <==> unstopped || (host.files != ConfigFiles(None, None) && o.rollbackStartWorks))
            && host'.loaded == (if host'.running && !unstopped then host'.files else host.loaded)
            && (host.files.mainCf.Some? && host.files.masterCf.Some? ==> host'.files == host.files)
  {
    hide Activated, ActivationOrder, AllActivate, DryRunBuilds;
  }

  /** The live maps, whatever becomes of a request: untouched before activation, all rebuilt
      if each was activated, and otherwise those up to the first that was not, which counts
      if only its permissions failed. */
  lemma LiveMapsAfter(host: Host, request: Request, generation: nat, o: Outcomes, first: nat)
    requires first <= |ActivationOrder(MAP_NAMES)|
    requires forall j :: 0 <= j < first ==> ActivatesCleanly(o, ActivationOrder(MAP_NAMES)[j])
    requires first < |ActivationOrder(MAP_NAMES)| ==> !ActivatesCleanly(o, ActivationOrder(MAP_NAMES)[first])
    ensures var order := ActivationOrder(MAP_NAMES);
            var n := if first < |order| && Builds(o, order[first]) then first + 1 else first;
            Applied(host, request, generation, o).0.live ==
              if Staged(o) && InstallsBoth(o) then host.live + Databases(order[..n], request.maps, generation) else host.live
  {
    hide Activated, ActivationOrder, AllActivate, DryRunBuilds, Databases, Builds;
    PartialActivation(host.live, ActivationOrder(MAP_NAMES), request.maps, generation, o, first);
  }

  lemma {:induction false} PartialActivation(live: LiveMaps, names: seq<MapName>, maps: Maps, generation: nat, o: Outcomes, first: nat)
    requires first <= |names| && forall j :: 0 <= j < first ==> ActivatesCleanly(o, names[j])
    requires first < |names| ==> !ActivatesCleanly(o, names[first])
    ensures Activated(live, names, maps, generation, o)
         == live + Databases(names[..if first < |names| && Builds(o, names[first]) then first + 1 else first], maps, generation)
    decreases first
  {
    hide Content, Databases;
    DatabasesOfMore([], maps, generation);
    var n := if first < |names| && Builds(o, names[first]) then first + 1 else first;
    assert names[..0] == [] && live + map[] == live;
    if n > 0 {
      var database := Database(Content(maps, names[0]), generation);
      assert names[..n][0] == names[0] && names[..n][1..] == names[1..][..n - 1];
      DatabasesOfMore(names[..n], maps, generation);
      if first > 0 {
        PartialActivation(live[names[0] := database], names[1..], maps, generation, o, first - 1);
      }
      UpdateThenMerge(live, names[0], database, Databases(names[1..][..n - 1], maps, generation));
    }
  }

  lemma UpdateThenMerge(live: LiveMaps, name: MapName, database: Database, more: LiveMaps)
    ensures live[name := database] + more == live + (map[name := database] + more)
    ensures live[name := database] + map[] == live[name := database]
  {
  }

  // --------------------------------------------------------- every instant

  /** Whenever the authorization map changes, all five maps are those of one request.
      `sent` lists the maps of every request so far. */
  ghost predicate LoginLast(history: seq<LiveMaps>, sent: seq<Maps>) {
    forall k :: 0 < k < |history| && LoginChanges(history[k - 1], history[k]) ==> FromOneRequest(history[k], sent)
  }

  ghost predicate LoginChanges(before: LiveMaps, after: LiveMaps) {
    SenderLogin in after && (SenderLogin !in before || after[SenderLogin] != before[SenderLogin])
  }

  ghost predicate FromOneRequest(live: LiveMaps, sent: seq<Maps>) {
    && SenderLogin in live
    && var g := live[SenderLogin].generation;
       && 1 <= g <= |sent|
       && forall name :: name in MAP_NAMES ==> name in live && live[name] == Database(Content(sent[g - 1], name), g)
  }

  lemma LoginLastExtends(history: seq<LiveMaps>, sent: seq<Maps>, live: LiveMaps)
    requires history != [] && LoginLast(history, sent)
    requires LoginChanges(Last(history), live) ==> FromOneRequest(live, sent)
    ensures LoginLast(history + [live], sent)
  {
    hide FromOneRequest, LoginChanges;
  }

  lemma LoginLastKeeps(history: seq<LiveMaps>, sent: seq<Maps>, maps: Maps)
    requires LoginLast(history, sent)
    ensures LoginLast(history, sent + [maps])
  {
    hide Content;
    forall k | 0 < k < |history| && LoginChanges(history[k - 1], history[k])
      ensures FromOneRequest(history[k], sent + [maps])
    {
      assert FromOneRequest(history[k], sent);
    }
  }

  lemma AllOfOneRequest(live: LiveMaps, sent: seq<Maps>)
    requires sent != []
    requires forall name :: name in ActivationOrder(MAP_NAMES) ==>
               name in live && live[name] == Database(Content(Last(sent), name), |sent|)
    ensures FromOneRequest(live, sent)
  {
    hide Content, ActivationOrder;
    EveryMapHasItsTurn();
  }

  lemma OneFailureIsEnough(o: Outcomes, name: MapName)
    requires !ActivatesCleanly(o, name)
    ensures !AllActivate(o)
  {
    hide ActivationOrder, ActivatesCleanly;
    EveryMapHasItsTurn();
  }

  lemma EveryMapActivates(o: Outcomes, order: seq<MapName>)
    requires order == ActivationOrder(MAP_NAMES) && forall j :: 0 <= j < |order| ==> ActivatesCleanly(o, order[j])
    ensures AllActivate(o)
  {
    LoginComesLast();
  }

  lemma ActivatesNext(live: LiveMaps, order: seq<MapName>, i: nat, maps: Maps, generation: nat, o: Outcomes)
    requires i < |order|
    ensures var live' := live[order[i] := Database(Content(maps, order[i]), generation)];
            Activated(live, order[i..], maps, generation, o) ==
              if !Builds(o, order[i]) then live
              else if order[i] in o.chmodFails then live'
              else Activated(live', order[i + 1..], maps, generation, o)
  {
    hide Content, Builds;
    assert order[i..][0] == order[i] && order[i..][1..] == order[i + 1..];
  }

  lemma NoneLeft(live: LiveMaps, order: seq<MapName>, maps: Maps, generation: nat, o: Outcomes)
    ensures Activated(live, order[|order|..], maps, generation, o) == live
  {
  }

  class PostfixContainer {
    var mainCf: Option<string>
    var masterCf: Option<string>
    var live: LiveMaps
    var running: bool
    var loaded: ConfigFiles
    /** Counts the calls; nothing depends on it but the bookkeeping below. */
    var generation: nat
    /** Every state the live maps have been in, and the maps of every request. */
    ghost var history: seq<LiveMaps>
    ghost var sent: seq<Maps>

    ghost predicate Valid()
      reads this
    {
      history != [] && Last(history) == live && |sent| == generation && LoginLast(history, sent)
    }

    function State(): Host
      reads this
    {
      Host(ConfigFiles(mainCf, masterCf), live, running, loaded)
    }

    constructor (host: Host)
      ensures Valid() && State() == host && history == [host.live]
    {
      mainCf, masterCf, live, running, loaded := host.files.mainCf, host.files.masterCf, host.live, host.running, host.loaded;
      generation := 0;
      history, sent := [host.live], [];
    }

    /** Dry-run builds in a staging directory: reports the first failure, touches nothing live. */
    method StageMaps(o: Outcomes) returns (ok: bool)
      ensures ok == DryRunBuilds(o)
    {
      for i := 0 to |MAP_NAMES|
        invariant forall j :: 0 <= j < i ==> MAP_NAMES[j] !in o.stagingFails
      {
        if MAP_NAMES[i] in o.stagingFails {
          return false;
        }
      }
      return true;
    }

    method InstallConfig(request: Request, o: Outcomes) returns (previous: Option<ConfigFiles>)
      modifies this`mainCf, this`masterCf
      ensures InstallsBoth(o) ==>
                && previous == Some(ConfigFiles(old(mainCf), old(masterCf)))
                && mainCf == Some(request.mainCf) && masterCf == Some(request.masterCf)
      ensures !InstallsBoth(o) ==>
                && previous == None && masterCf == old(masterCf)
                && mainCf == if o.installFailsAt == Some(0) then old(mainCf) else Some(request.mainCf)
    {
      var previousMain := mainCf;
      if o.installFailsAt == Some(0) {
        return None;
      }
      mainCf := Some(request.mainCf);
      var previousMaster := masterCf;
      if o.installFailsAt == Some(1) {
        return None;
      }
      masterCf := Some(request.masterCf);
      return Some(ConfigFiles(previousMain, previousMaster));
    }

    method RestoreConfig(previous: ConfigFiles)
      modifies this`mainCf, this`masterCf
      ensures ConfigFiles(mainCf, masterCf) == Restored(ConfigFiles(old(mainCf), old(masterCf)), previous)
    {
      if previous.mainCf.Some? {
        mainCf := previous.mainCf;
      }
      if previous.masterCf.Some? {
        masterCf := previous.masterCf;
      }
    }

    /** Updates the live databases in place, routing first and authorization last, and
        stops at the first failure. */
    method ActivateMaps(maps: Maps, o: Outcomes) returns (ok: bool)
      requires Valid() && sent != [] && Last(sent) == maps
      modifies this`live, this`history
      ensures Valid() && old(history) <= history
      ensures ok == AllActivate(o)
      ensures live == Activated(old(live), ActivationOrder(MAP_NAMES), maps, generation, o)
    {
      hide Content, AllActivate, ActivationOrder, LoginLast, Activated;
      LoginComesLast();
      var order := ActivationOrder(MAP_NAMES);
      assert order[0..] == order;
      for i := 0 to |order|
        invariant Valid() && old(history) <= history
        invariant forall j :: 0 <= j < i ==> ActivatesCleanly(o, order[j])
        invariant forall j :: 0 <= j < i ==> order[j] in live && live[order[j]] == Database(Content(maps, order[j]), generation)
        invariant Activated(live, order[i..], maps, generation, o) == Activated(old(live), order, maps, generation, o)
      {
        var name := order[i];
        ActivatesNext(live, order, i, maps, generation, o);
        if name in o.writeFails || name in o.postmapFails {
          OneFailureIsEnough(o, name);
          return false;
        }
        ghost var before := live;
        live := live[name := Database(Content(maps, name), generation)];
        if name == SenderLogin {
          AllOfOneRequest(live, sent);
        }
        LoginLastExtends(history, sent, live);
        history := history + [live];
        if name in o.chmodFails {
          OneFailureIsEnough(o, name);
          return false;
        }
      }
      NoneLeft(live, order, maps, generation, o);
      EveryMapActivates(o, order);
      return true;
    }

    method Start(works: bool) returns (ok: bool)
      modifies this`running, this`loaded
      ensures State() == Started(old(State()), works) && ok == (!old(running) && works)
    {
      ok := !running && works;
      if ok {
        running, loaded := true, ConfigFiles(mainCf, masterCf);
      }
    }

    /** Stop and start; if that fails, back to the previous files, if there were any. */
    method Restart(previous: ConfigFiles, o: Outcomes) returns (reply: Reply)
      modifies this`mainCf, this`masterCf, this`running, this`loaded
      ensures (State(), reply) == Restarted(old(State()), previous, o)
    {
      running := running && !o.stopWorks;
      var started := Start(o.startWorks);
      if !started {
        if previous != ConfigFiles(None, None) {
          RestoreConfig(previous);
          var _ := Start(o.rollbackStartWorks);
        }
        return Reply(false, false);
      }
      return Reply(true, true);
    }

    /** The whole request. Its effect is `Applied`; at every instant of every sequence of
        calls, the authorization map changes only when all maps are of its generation. */
    method ApplyConfig(request: Request, o: Outcomes) returns (reply: Reply)
      requires Valid()
      modifies this
      ensures Valid() && old(history) <= history && generation == old(generation) + 1 && sent == old(sent) + [request.maps]
      ensures (State(), reply) == Applied(old(State()), request, generation, o)
    {
      hide Activated, ActivationOrder, DryRunBuilds, AllActivate, LoginLast, Restarted;
      LoginLastKeeps(history, sent, request.maps);
      generation := generation + 1;
      sent := sent + [request.maps];
      if !(o.mainValid && o.masterValid) {
        return Reply(false, false);
      }
      var staged := StageMaps(o);
      if !staged {
        return Reply(false, false);
      }
      var previous := InstallConfig(request, o);
      if previous.None? {
        return Reply(false, false);
      }
      var activated := ActivateMaps(request.maps, o);
      if !activated {
        RestoreConfig(previous.value);
        return Reply(false, false);
      }
      if !request.reload {
        return Reply(true, false);
      }
      reply := Restart(previous.value, o);
    }
  }
}
