/**
 The bookkeeping between the database and Postfix: each generation records the checksums
 of what it applied, and the health check trusts those records. The theorem is that it
 may: a relay that reports "ok" runs exactly the configuration the database calls for.
 */
module ConfigProtocol {
  import opened Prelude
  import opened ConfigMaps
  import opened MapMeaning
  import opened ControlSurface

  /** A SHA-256 digest, taken to identify what was hashed. */
  datatype Digest = Digest(preimage: string)

  /** What the current database renders to; the templates themselves are not modelled. */
  datatype Rendering = Rendering(mainCf: string, masterCf: string, maps: Maps)

  /** One row of config_generations; `success` stands for both "pass" and "applied". */
  datatype Generation = Generation(checksum: Digest, mapsChecksum: Digest, success: bool)

  /** `current` is `None` while some stored upstream password cannot be decrypted. */
  datatype Relay = Relay(current: Option<Rendering>, rows: seq<Generation>, host: Host, calls: nat)

  function Checksum(r: Rendering): Digest {
    Digest(ConfigPreimage(r.mainCf, r.masterCf))
  }

  function MapsChecksum(r: Rendering): Digest {
    Digest(MapsPreimage(r.maps))
  }

  /** The latest row that passed. */
  function LastGood(rows: seq<Generation>): Option<Generation> {
    if rows == [] then None
    else if Last(rows).success then Some(Last(rows))
    else LastGood(Init(rows))
  }

  // --------------------------------------------------------------- steps

  datatype Event =
    | Edit(to: Option<Rendering>)
    | Generate(dryRun: bool, statusReachable: bool, applyReachable: bool, crashesMeanwhile: bool, o: Outcomes)
    | LostReply(reload: bool, o: Outcomes)
    | Crash
    | CertificateRestart(stopWorks: bool, startWorks: bool)

  function Crashed(host: Host): Host {
    host.(running := false)
  }

  /** Whether main.cf or master.cf changed since the last good generation, or Postfix may be down. */
  function NeedsReload(s: Relay, r: Rendering, statusReachable: bool): bool {
    match LastGood(s.rows)
    case None => true
    case Some(good) => good.checksum != Checksum(r) || !statusReachable || !s.host.running
  }

  function Generated(s: Relay, e: Event): Relay
    requires e.Generate?
  {
    if s.current.None? || e.dryRun then s
    else
      var r := s.current.value;
      var reload := NeedsReload(s, r, e.statusReachable);
      var host := if e.crashesMeanwhile then Crashed(s.host) else s.host;
      if !e.applyReachable then s.(host := host)
      else
        var (host', reply) := Applied(host, Request(r.mainCf, r.masterCf, r.maps, reload), s.calls + 1, e.o);
        s.(host := host', calls := s.calls + 1, rows := s.rows + [Generation(Checksum(r), MapsChecksum(r), reply.success)])
  }

  function Step(s: Relay, e: Event): Relay {
    match e
    case Edit(to) => s.(current := to)
    case Generate(_, _, _, _, _) => Generated(s, e)
    case LostReply(reload, o) =>
      if s.current.None? then s
      else
        var r := s.current.value;
        s.(host := Applied(s.host, Request(r.mainCf, r.masterCf, r.maps, reload), s.calls + 1, o).0, calls := s.calls + 1)
    case Crash => s.(host := Crashed(s.host))
    case CertificateRestart(stopWorks, startWorks) =>
      s.(host := Started(Stopped(s.host, stopWorks), startWorks))
  }

  function Run(s: Relay, events: seq<Event>): Relay {
    if events == [] then s else Step(Run(s, Init(events)), Last(events))
  }

  // -------------------------------------------------------------- health

  datatype LastResult = NoneYet | Pass | Fail

  datatype HealthReport = HealthReport(
    ok: bool,
    postfixReachable: bool,
    postfixRunning: bool,
    lastGenerationResult: LastResult,
    configInSync: bool)

  function RunHealthCheck(s: Relay, reachable: bool): HealthReport {
    var good := LastGood(s.rows);
    var lastResult := if s.rows == [] then NoneYet else if Last(s.rows).success then Pass else Fail;
    var running := reachable && s.host.running;
    var inSync := good.Some? && s.current.Some?
                  && Checksum(s.current.value) == good.value.checksum && MapsChecksum(s.current.value) == good.value.mapsChecksum;
    HealthReport(
      reachable && lastResult != Fail && (good.None? || running) && (good.None? || inSync),
      reachable, running, lastResult, inSync)
  }

  // ---------------------------------------------------- the generator itself

  class ConfigGenerator {
    var current: Option<Rendering>
    var rows: seq<Generation>
    const container: PostfixContainer

    ghost predicate Valid()
      reads this, container
    {
      container.Valid()
    }

    function State(): Relay
      reads this, container
    {
      Relay(current, rows, container.State(), container.generation)
    }

    constructor (container: PostfixContainer, current: Option<Rendering>)
      requires container.Valid()
      ensures Valid() && this.container == container && State() == Relay(current, [], container.State(), container.generation)
    {
      this.container, this.current, rows := container, current, [];
    }

    /** Render, decide on a restart, send to the control surface, record the outcome. */
    method GenerateAndApply(e: Event)
      requires Valid() && e.Generate?
      modifies this`rows, container
      ensures Valid() && State() == Generated(old(State()), e)
      ensures old(Consistent(State())) && Reported(e) ==> Consistent(State())
    {
      hide Consistent, Reported, Applied;
      GenerateKeepsConsistent(State(), e);
      if current.None? {
        return;
      }
      var r := current.value;
      var checksum, mapsChecksum := Checksum(r), MapsChecksum(r);
      var lastGood := LastGood(rows);
      var reload := lastGood.None? || lastGood.value.checksum != checksum;
      if e.dryRun {
        return;
      }
      if !reload {
        reload := if e.statusReachable then !container.running else true;
      }
      if e.crashesMeanwhile {
        container.running := false;
      }
      if !e.applyReachable {
        return;
      }
      var reply := container.ApplyConfig(Request(r.mainCf, r.masterCf, r.maps, reload), e.o);
      rows := rows + [Generation(checksum, mapsChecksum, reply.success)];
    }
  }

  // ----------------------------------------------------------- the theorem

  /** Renderings whose checksums identify them (MapMeaning shows that every database the
      schemas admit has such maps). */
  ghost predicate Identifiable(r: Rendering) {
    && NUL !in r.mainCf
    && NUL !in r.maps.login && NUL !in r.maps.relayhost && NUL !in r.maps.transport && NUL !in r.maps.policy
  }

  ghost predicate CurrentIdentifiable(current: Option<Rendering>) {
    current.Some? ==> Identifiable(current.value)
  }

  /** Events within the scope of the theorem: every reply arrives, and the two-file
      install does not break off between the files. */
  ghost predicate Reported(e: Event) {
    match e
    case Edit(to) => CurrentIdentifiable(to)
    case Generate(_, _, _, _, o) => o.installFailsAt != Some(1)
    case LostReply(_, _) => false
    case Crash => true
    case CertificateRestart(_, _) => true
  }

  ghost predicate OnDisk(host: Host, r: Rendering) {
    && host.files == ConfigFiles(Some(r.mainCf), Some(r.masterCf))
    && (host.running ==> host.loaded == host.files)
  }

  ghost predicate MapsLive(host: Host, maps: Maps) {
    forall name :: name in MAP_NAMES ==> name in host.live && host.live[name].content == Content(maps, name)
  }

  /** `r` is what the last good row stands for, and Postfix has it. */
  ghost predicate Explains(r: Rendering, s: Relay) {
    && Identifiable(r) && LastGood(s.rows).Some?
    && LastGood(s.rows).value.checksum == Checksum(r) && LastGood(s.rows).value.mapsChecksum == MapsChecksum(r)
    && OnDisk(s.host, r)
    && (Last(s.rows).success ==> MapsLive(s.host, r.maps))
  }

  ghost predicate Consistent(s: Relay) {
    && CurrentIdentifiable(s.current)
    && (LastGood(s.rows).Some? ==> s.rows != [] && exists r :: Explains(r, s))
  }

  lemma SameDigestsSameRendering(r: Rendering, r': Rendering)
    requires Identifiable(r) && Identifiable(r')
    ensures Checksum(r) == Checksum(r') ==> r.mainCf == r'.mainCf && r.masterCf == r'.masterCf
    ensures MapsChecksum(r) == MapsChecksum(r') ==> r.maps == r'.maps
  {
    hide ConfigPreimage, MapsPreimage;
    if Checksum(r) == Checksum(r') {
      ConfigChecksumIdentifies(r.mainCf, r.masterCf, r'.mainCf, r'.masterCf);
    }
    if MapsChecksum(r) == MapsChecksum(r') {
      MapsChecksumIdentifies(r.maps, r'.maps);
    }
  }

  lemma RebuiltIsLive(live: LiveMaps, maps: Maps, generation: nat, host: Host)
    requires host.live == Rebuilt(live, maps, generation)
    ensures MapsLive(host, maps)
  {
    hide Content;
  }

  lemma GenerateSucceeds(s: Relay, e: Event)
    requires e.Generate? && Consistent(s) && s.current.Some? && !e.dryRun && e.applyReachable
    requires Last(Generated(s, e).rows).success
    ensures Explains(s.current.value, Generated(s, e))
  {
    hide ConfigPreimage, MapsPreimage, MapsLive, Activated, ActivationOrder, AllActivate, DryRunBuilds, Rebuilt, Applied;
    var r := s.current.value;
    var reload := NeedsReload(s, r, e.statusReachable);
    var host := if e.crashesMeanwhile then Crashed(s.host) else s.host;
    var request := Request(r.mainCf, r.masterCf, r.maps, reload);
    var s' := Generated(s, e);
    assert Init(s'.rows) == s.rows;
    SuccessInstallsEverything(host, request, s.calls + 1, e.o);
    RebuiltIsLive(host.live, r.maps, s.calls + 1, s'.host);
    if !reload {
      var good :| Explains(good, s);
      SameDigestsSameRendering(r, good);
    }
  }

  lemma GenerateFails(s: Relay, e: Event, r: Rendering)
    requires e.Generate? && Reported(e) && s.current.Some? && !e.dryRun && e.applyReachable
    requires s.rows != [] && Explains(r, s) && !Last(Generated(s, e).rows).success
    ensures Explains(r, Generated(s, e))
  {
    hide ConfigPreimage, MapsPreimage, MapsLive, Activated, ActivationOrder, AllActivate, DryRunBuilds, Rebuilt, Applied, Identifiable;
    var now := s.current.value;
    var reload := NeedsReload(s, now, e.statusReachable);
    var host := if e.crashesMeanwhile then Crashed(s.host) else s.host;
    var s' := Generated(s, e);
    assert Init(s'.rows) == s.rows;
    FailureRestoresFiles(host, Request(now.mainCf, now.masterCf, now.maps, reload), s.calls + 1, e.o);
  }

  lemma StepKeepsConsistent(s: Relay, e: Event)
    requires Consistent(s) && Reported(e)
    ensures Consistent(Step(s, e))
  {
    hide Identifiable, ConfigPreimage, MapsPreimage, Applied, MapsLive;
    var s' := Step(s, e);
    if e.Generate? && s.current.Some? && !e.dryRun && e.applyReachable {
      assert s'.rows != [] && Init(s'.rows) == s.rows;
      if Last(s'.rows).success {
        GenerateSucceeds(s, e);
      } else if LastGood(s.rows).Some? {
        var r :| Explains(r, s);
        GenerateFails(s, e, r);
      }
    } else if LastGood(s.rows).Some? {
      var r :| Explains(r, s);
      assert MapsLive(s.host, r.maps) ==> MapsLive(s'.host, r.maps) by {
        assert s'.host.live == s.host.live;
        SameLiveMaps(s.host, s'.host, r.maps);
      }
      assert Explains(r, s');
    }
  }

  lemma GenerateKeepsConsistent(s: Relay, e: Event)
    requires e.Generate?
    ensures Consistent(s) && Reported(e) ==> Consistent(Generated(s, e))
  {
    hide Consistent, Reported, Generated;
    if Consistent(s) && Reported(e) {
      StepKeepsConsistent(s, e);
    }
  }

  lemma SameLiveMaps(host: Host, host': Host, maps: Maps)
    requires host.live == host'.live
    ensures MapsLive(host, maps) == MapsLive(host', maps)
  {
  }

  lemma {:induction false} RunsStayConsistent(s: Relay, events: seq<Event>)
    requires Consistent(s) && forall e :: e in events ==> Reported(e)
    ensures Consistent(Run(s, events))
  {
    if events != [] {
      RunsStayConsistent(s, Init(events));
      assert Last(events) in events;
      StepKeepsConsistent(Run(s, Init(events)), Last(events));
    }
  }

  /** Postfix runs with the files and maps that the current database renders to. */
  ghost predicate RunsCurrent(s: Relay) {
    && s.current.Some? && s.host.running
    && s.host.loaded == ConfigFiles(Some(s.current.value.mainCf), Some(s.current.value.masterCf))
    && MapsLive(s.host, s.current.value.maps)
  }

  /** If the relay reports "ok" after a first success, then Postfix runs, with exactly the
      files and exactly the maps that the current database renders to. */
  ghost predicate HealthIsTrue(s: Relay) {
    RunHealthCheck(s, true).ok && LastGood(s.rows).Some? ==> RunsCurrent(s)
  }

  /** Over every run of database edits, generations with any outcome that is reported
      back, crashes and certificate restarts, from any initial host on which nothing was
      ever generated: "ok" after a first success means that Postfix runs, with exactly the
      files and exactly the maps that the current database renders to. */
  lemma HealthTellsTheTruth(current: Option<Rendering>, host: Host, events: seq<Event>)
    requires CurrentIdentifiable(current) && forall e :: e in events ==> Reported(e)
    ensures HealthIsTrue(Run(Relay(current, [], host, 0), events))
  {
    hide MapsLive, ConfigPreimage, MapsPreimage, Run;
    var s0 := Relay(current, [], host, 0);
    assert Consistent(s0);
    RunsStayConsistent(s0, events);
    ConsistentIsTrue(Run(s0, events));
  }

  lemma ConsistentIsTrue(s: Relay)
    requires Consistent(s)
    ensures HealthIsTrue(s)
  {
    hide MapsLive, ConfigPreimage, MapsPreimage;
    if RunHealthCheck(s, true).ok && LastGood(s.rows).Some? {
      var r :| Explains(r, s);
      SameDigestsSameRendering(s.current.value, r);
    }
  }

  /** The other direction: a generation that succeeds leaves a healthy relay, unless
      Postfix crashed while it ran. */
  lemma SuccessIsHealthy(s: Relay, e: Event)
    requires Consistent(s) && e.Generate? && s.current.Some? && !e.dryRun && e.applyReachable && !e.crashesMeanwhile
    requires Last(Generated(s, e).rows).success
    ensures RunHealthCheck(Generated(s, e), true).ok
  {
    hide ConfigPreimage, MapsPreimage, MapsLive, Applied, Activated, ActivationOrder, AllActivate, DryRunBuilds, Rebuilt, Identifiable;
    GenerateSucceeds(s, e);
    var r := s.current.value;
    SuccessInstallsEverything(s.host, Request(r.mainCf, r.masterCf, r.maps, NeedsReload(s, r, e.statusReachable)), s.calls + 1, e.o);
    assert Init(Generated(s, e).rows) == s.rows;
  }

  // ------------------------------------------- what one report and one call say

  /** What any report says, in any state: "ok" needs an answer from the control surface and
      a last generation that did not fail, and Postfix counts as running only if reached. */
  lemma ReportIsHonest(s: Relay, reachable: bool)
    ensures var report := RunHealthCheck(s, reachable);
            && (report.ok ==> reachable && (s.rows == [] || Last(s.rows).success))
            && report.postfixReachable == reachable && (report.postfixRunning <==> reachable && s.host.running)
            && (report.lastGenerationResult.NoneYet? <==> s.rows == [])
            && (report.lastGenerationResult.Pass? <==> s.rows != [] && Last(s.rows).success)
            && (report.configInSync ==> LastGood(s.rows).Some? && s.current.Some?)
  {
    hide Checksum, MapsChecksum;
  }

  /** Exactly when the relay is healthy: reached, and either nothing was ever generated, or
      the last generation passed and Postfix runs with the files and maps of the current database. */
  lemma HealthIsOkIff(s: Relay, reachable: bool)
    requires Consistent(s)
    ensures RunHealthCheck(s, reachable).ok <==>
              reachable && (s.rows == [] || (Last(s.rows).success && RunsCurrent(s)))
  {
    hide MapsLive, ConfigPreimage, MapsPreimage, Identifiable;
    ReportIsHonest(s, reachable);
    if s.rows != [] && Last(s.rows).success {
      var r :| Explains(r, s);
      if s.current.Some? {
        SameDigestsSameRendering(s.current.value, r);
        if MapsLive(s.host, s.current.value.maps) {
          OneSetOfMapsIsLive(s.host, s.current.value.maps, r.maps);
        }
      }
    }
  }

  /** The bookkeeping of a call: nothing at all without an answer, for a dry run or if some
      password cannot be decrypted; otherwise one row, with the checksums of what was sent
      and whether it was applied. */
  lemma OneRowPerAnswer(s: Relay, e: Event)
    requires e.Generate?
    ensures s.current.None? || e.dryRun ==> Generated(s, e) == s
    ensures !e.applyReachable ==> Generated(s, e).rows == s.rows && Generated(s, e).host.files == s.host.files
                                  && Generated(s, e).host.live == s.host.live
    ensures s.current.Some? && !e.dryRun && e.applyReachable ==>
              && |Generated(s, e).rows| == |s.rows| + 1 && Init(Generated(s, e).rows) == s.rows
              && Last(Generated(s, e).rows).checksum == Checksum(s.current.value)
              && Last(Generated(s, e).rows).mapsChecksum == MapsChecksum(s.current.value)
              && (Last(Generated(s, e).rows).success ==>
                    Generated(s, e).host.files == ConfigFiles(Some(s.current.value.mainCf), Some(s.current.value.masterCf)))
              && (!(Staged(e.o) && InstallsBoth(e.o) && AllActivate(e.o)) ==> !Last(Generated(s, e).rows).success)
  {
    hide Checksum, MapsChecksum, Applied, Staged, InstallsBoth, AllActivate, NeedsReload, Rebuilt;
    if s.current.Some? && !e.dryRun && e.applyReachable {
      var r := s.current.value;
      var host := if e.crashesMeanwhile then Crashed(s.host) else s.host;
      var request := Request(r.mainCf, r.masterCf, r.maps, NeedsReload(s, r, e.statusReachable));
      var s' := Generated(s, e);
      assert Init(s'.rows) == s.rows;
      SucceedsIff(host, request, s.calls + 1, e.o);
      if Last(s'.rows).success {
        SuccessInstallsEverything(host, request, s.calls + 1, e.o);
      }
    }
  }

  /** A running relay is not restarted for maps alone: with the files of the last good
      generation, reached and running, no outcome of a call stops it or makes it load anything. */
  lemma NoNeedlessRestart(s: Relay, e: Event)
    requires e.Generate? && s.current.Some? && LastGood(s.rows).Some? && e.statusReachable && s.host.running && !e.crashesMeanwhile
    requires LastGood(s.rows).value.checksum == Checksum(s.current.value)
    ensures Generated(s, e).host.running && Generated(s, e).host.loaded == s.host.loaded
  {
    hide Checksum, MapsChecksum, Applied, Staged, InstallsBoth, AllActivate;
    var r := s.current.value;
    NoRestartNoChange(s.host, Request(r.mainCf, r.masterCf, r.maps, false), s.calls + 1, e.o);
  }

  /** ... and it is restarted when it has to be: a call that succeeds leaves Postfix running
      with the files just installed if they are new, if nothing passed before, or if Postfix
      was down or could not be asked. */
  lemma NeededRestart(s: Relay, e: Event)
    requires e.Generate? && s.current.Some? && !e.dryRun && e.applyReachable && Last(Generated(s, e).rows).success
    requires LastGood(s.rows).None? || LastGood(s.rows).value.checksum != Checksum(s.current.value)
             || !e.statusReachable || !s.host.running
    ensures var host' := Generated(s, e).host;
            host'.running && host'.loaded == ConfigFiles(Some(s.current.value.mainCf), Some(s.current.value.masterCf))
  {
    hide Checksum, MapsChecksum, Applied, Rebuilt;
    var r := s.current.value;
    var host := if e.crashesMeanwhile then Crashed(s.host) else s.host;
    SuccessInstallsEverything(host, Request(r.mainCf, r.masterCf, r.maps, true), s.calls + 1, e.o);
  }

  // -------------------------------------------------- no rights without a route

  /** At any instant at which the live authorization map changes, if the request it came
      from was rendered from a database the schemas admit, every address it authorizes has
      its relayhost, credentials and transport live already. */
  lemma AuthorizationNeverLeads(history: seq<LiveMaps>, sent: seq<Maps>, k: nat, db: Db)
    requires LoginLast(history, sent) && 0 < k < |history| && LoginChanges(history[k - 1], history[k])
    requires SchemaValid(db)
    requires FromOneRequest(history[k], sent) ==> sent[history[k][SenderLogin].generation - 1] == RenderedMaps(db)
    ensures forall name :: name in MAP_NAMES ==> name in history[k]
    ensures var maps := AsMaps(history[k]);
            && ReadRoutes(maps).Some?
            && forall owner :: owner in ReadOwners(maps) ==> exists r :: r in ReadRoutes(maps).value && r.address == owner.0
  {
    hide ReadRoutes, ReadOwners, RenderedMaps, SchemaValid;
    LoginComesLast();
    assert FromOneRequest(history[k], sent);
    assert AsMaps(history[k]) == RenderedMaps(db);
    AuthorisedAreRouted(db);
  }

  function AsMaps(live: LiveMaps): Maps
    requires forall name :: name in MAP_NAMES ==> name in live
  {
    LoginComesLast();
    Maps(live[SenderLogin].content, live[SenderRelayhost].content, live[SaslPasswd].content,
         live[SenderTransport].content, live[TlsPolicy].content)
  }

  // --------------------------------------------------- the scope is needed

  const ALL_WELL: Outcomes := Outcomes(true, true, {}, None, {}, {}, {}, true, true, true)

  lemma CleanApplySucceeds(host: Host, request: Request, generation: nat)
    ensures Applied(host, request, generation, ALL_WELL).1.success
  {
    hide Activated, ActivationOrder;
  }

  /** Without a reply there is no row: a configuration that was applied but never
      recorded can be hidden behind an "ok" by editing the database back. */
  lemma LostReplyDeceivesHealth(a: Rendering, b: Rendering, host: Host)
    requires a.mainCf != b.mainCf
    ensures var s := Run(Relay(Some(a), [], host, 0),
                         [Generate(false, true, true, false, ALL_WELL), Edit(Some(b)), LostReply(true, ALL_WELL), Edit(Some(a))]);
            && RunHealthCheck(s, true).ok && s.current == Some(a)
            && s.host.running && s.host.loaded.mainCf == Some(b.mainCf) != Some(a.mainCf)
  {
    hide Applied, Activated, ActivationOrder, AllActivate, DryRunBuilds, Rebuilt, ConfigPreimage, MapsPreimage, Run;
    var generate, edit, lost, back := Generate(false, true, true, false, ALL_WELL), Edit(Some(b)), LostReply(true, ALL_WELL), Edit(Some(a));
    var s0 := Relay(Some(a), [], host, 0);
    var s1 := Step(s0, generate);
    var s2 := Step(s1, edit);
    var s3 := Step(s2, lost);
    var s4 := Step(s3, back);
    FourSteps(s0, generate, edit, lost, back);
    CleanApplySucceeds(host, Request(a.mainCf, a.masterCf, a.maps, true), 1);
    SuccessInstallsEverything(host, Request(a.mainCf, a.masterCf, a.maps, true), 1, ALL_WELL);
    CleanApplySucceeds(s2.host, Request(b.mainCf, b.masterCf, b.maps, true), 2);
    SuccessInstallsEverything(s2.host, Request(b.mainCf, b.masterCf, b.maps, true), 2, ALL_WELL);
    assert s4.rows == [Generation(Checksum(a), MapsChecksum(a), true)];
  }

  /** The rows call for no further generation: the last one passed, with the checksums of
      the current database. All of it is read before a request is sent. */
  predicate RowsAreSettled(s: Relay) {
    && s.rows != [] && Last(s.rows).success && s.current.Some?
    && Last(s.rows).checksum == Checksum(s.current.value) && Last(s.rows).mapsChecksum == MapsChecksum(s.current.value)
  }

  function EditedLostAndBack(s: Relay, a: Rendering, b: Rendering, reload: bool, o: Outcomes): Relay {
    Run(s, [Edit(Some(b)), LostReply(reload, o), Edit(Some(a))])
  }

  lemma ThreeSteps(s: Relay, a: Rendering, b: Rendering, reload: bool, o: Outcomes)
    ensures var s' := EditedLostAndBack(s, a, b, reload, o);
            && s'.current == Some(a) && s'.rows == s.rows
            && s'.host == Applied(s.host, Request(b.mainCf, b.masterCf, b.maps, reload), s.calls + 1, o).0
  {
    hide Applied;
    var e1, e2, e3 := Edit(Some(b)), LostReply(reload, o), Edit(Some(a));
    assert Init([e1, e2, e3]) == [e1, e2] && Init([e1, e2]) == [e1] && Init([e1]) == [];
    assert Run(s, [e1]) == Step(Run(s, []), e1);
    assert Run(s, [e1, e2]) == Step(Run(s, [e1]), e2);
  }

  /** Applying once more what is there, with any outcome, leaves the files and maps. */
  lemma SameAgain(host: Host, r: Rendering, reload: bool, generation: nat, o: Outcomes)
    requires OnDisk(host, r) && MapsLive(host, r.maps)
    ensures var host' := Applied(host, Request(r.mainCf, r.masterCf, r.maps, reload), generation, o).0;
            OnDisk(host', r) && MapsLive(host', r.maps)
  {
    hide AllActivate, DryRunBuilds, ActivationOrder, Activated, MapsLive;
    SameMapsAgain(host, r.maps, ActivationOrder(MAP_NAMES), generation, o);
    var live := Activated(host.live, ActivationOrder(MAP_NAMES), r.maps, generation, o);
    var host' := Applied(host, Request(r.mainCf, r.masterCf, r.maps, reload), generation, o).0;
    assert host'.live == host.live || host'.live == live;
    SameLiveMaps(if host'.live == live then host.(live := live) else host, host', r.maps);
  }

  lemma {:induction false} SameMapsAgain(host: Host, maps: Maps, names: seq<MapName>, generation: nat, o: Outcomes)
    requires MapsLive(host, maps)
    ensures MapsLive(host.(live := Activated(host.live, names, maps, generation, o)), maps)
    decreases |names|
  {
    hide Content;
    if names != [] && Builds(o, names[0]) {
      var live' := host.live[names[0] := Database(Content(maps, names[0]), generation)];
      assert MapsLive(host.(live := live'), maps);
      SameMapsAgain(host.(live := live'), maps, names[1..], generation, o);
    }
  }

  /** Exactly when a lost reply does no harm: editing the database to `b`, losing the reply
      of a request, and editing back leaves the health check truthful, whatever became of
      the request, if and only if nothing was edited or the rows were not settled anyway. */
  lemma LostReplyHarmlessIff(s: Relay, a: Rendering, b: Rendering)
    requires Consistent(s) && s.current == Some(a) && Identifiable(b)
    ensures (forall reload, o :: HealthIsTrue(EditedLostAndBack(s, a, b, reload, o))) <==> a == b || !RowsAreSettled(s)
  {
    hide Identifiable, ConfigPreimage, MapsPreimage, MapsLive, Applied, EditedLostAndBack, Consistent;
    if a == b || !RowsAreSettled(s) {
      forall reload, o ensures HealthIsTrue(EditedLostAndBack(s, a, b, reload, o)) {
        LostReplyIsHarmless(s, a, b, reload, o);
      }
    } else {
      LostReplyDoesHarm(s, a, b);
    }
  }

  lemma LostReplyIsHarmless(s: Relay, a: Rendering, b: Rendering, reload: bool, o: Outcomes)
    requires Consistent(s) && s.current == Some(a) && (a == b || !RowsAreSettled(s))
    ensures HealthIsTrue(EditedLostAndBack(s, a, b, reload, o))
  {
    hide Identifiable, ConfigPreimage, MapsPreimage, MapsLive, Applied, EditedLostAndBack;
    var s' := EditedLostAndBack(s, a, b, reload, o);
    ThreeSteps(s, a, b, reload, o);
    if RowsAreSettled(s) {
      var r :| Explains(r, s);
      SettledIsCurrent(s, r);
      SameAgain(s.host, a, reload, s.calls + 1, o);
    }
  }

  lemma SettledIsCurrent(s: Relay, r: Rendering)
    requires CurrentIdentifiable(s.current) && RowsAreSettled(s) && Explains(r, s)
    ensures r == s.current.value && OnDisk(s.host, r) && MapsLive(s.host, r.maps)
  {
    hide Identifiable, ConfigPreimage, MapsPreimage, MapsLive;
    SameDigestsSameRendering(r, s.current.value);
  }

  lemma LostReplyDoesHarm(s: Relay, a: Rendering, b: Rendering)
    requires s.current == Some(a) && a != b && RowsAreSettled(s)
    ensures !HealthIsTrue(EditedLostAndBack(s, a, b, true, ALL_WELL))
  {
    hide ConfigPreimage, MapsPreimage, Applied, EditedLostAndBack, MapsLive, Rebuilt;
    var request := Request(b.mainCf, b.masterCf, b.maps, true);
    var s' := EditedLostAndBack(s, a, b, true, ALL_WELL);
    ThreeSteps(s, a, b, true, ALL_WELL);
    CleanApplySucceeds(s.host, request, s.calls + 1);
    SuccessInstallsEverything(s.host, request, s.calls + 1, ALL_WELL);
    RebuiltIsLive(s.host.live, b.maps, s.calls + 1, s'.host);
    if MapsLive(s'.host, a.maps) {
      OneSetOfMapsIsLive(s'.host, a.maps, b.maps);
    }
  }

  lemma OneSetOfMapsIsLive(host: Host, maps: Maps, maps': Maps)
    requires MapsLive(host, maps) && MapsLive(host, maps')
    ensures maps == maps'
  {
    LoginComesLast();
    assert forall name :: name in MAP_NAMES ==> Content(maps, name) == Content(maps', name);
    assert Content(maps, SenderLogin) == Content(maps', SenderLogin) && Content(maps, SenderRelayhost) == Content(maps', SenderRelayhost)
           && Content(maps, SaslPasswd) == Content(maps', SaslPasswd) && Content(maps, SenderTransport) == Content(maps', SenderTransport)
           && Content(maps, TlsPolicy) == Content(maps', TlsPolicy);
  }

  lemma FourSteps(s: Relay, e1: Event, e2: Event, e3: Event, e4: Event)
    ensures Run(s, [e1, e2, e3, e4]) == Step(Step(Step(Step(s, e1), e2), e3), e4)
  {
    hide Step;
    assert Init([e1, e2, e3, e4]) == [e1, e2, e3];
    assert Init([e1, e2, e3]) == [e1, e2];
    assert Init([e1, e2]) == [e1];
    assert Init([e1]) == [];
    assert Run(s, [e1]) == Step(Run(s, []), e1);
    assert Run(s, [e1, e2]) == Step(Run(s, [e1]), e2);
    assert Run(s, [e1, e2, e3]) == Step(Run(s, [e1, e2]), e3);
  }
}
