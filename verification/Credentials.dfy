/**
 Local SMTP credentials live in three places: the database says who is enabled, the live
 sasldb2 decides who can authenticate, and a copy on a volume is what a recreated
 container starts from. Every route writes them in a fixed order, any step can fail, and
 still no disabled or deleted user keeps a password anybody was ever given.
 */
module Credentials {
  import opened Prelude
  import opened Text

  /** Passwords are random; the model names them apart and never reuses a name. */
  type Password = nat

  type Entries = map<string, Password>

  /** The live database, and the volume copy once there is one. */
  datatype Sasl = Sasl(live: Entries, volume: Option<Entries>)

  /** How a `sasl_set_user` call goes; a call that is not reached has no effect, and one
      whose reply is lost has its full effect but counts as failed. */
  datatype SetOutcome = SetOutcome(reached: bool, commandWorks: bool, syncWorks: bool, replyArrives: bool)

  datatype DeleteOutcome = DeleteOutcome(reached: bool, listingWorks: bool, commandWorks: bool, syncWorks: bool, replyArrives: bool)

  const UNREACHABLE: DeleteOutcome := DeleteOutcome(false, false, false, false, false)

  function Synced(sasl: Sasl, works: bool): Sasl {
    if works then Sasl(sasl.live, Some(sasl.live)) else sasl
  }

  function SetUser(sasl: Sasl, name: string, password: Password, o: SetOutcome): (Sasl, bool) {
    if !o.reached || !o.commandWorks then (sasl, false)
    else (Synced(Sasl(sasl.live[name := password], sasl.volume), o.syncWorks), o.syncWorks && o.replyArrives)
  }

  /** Deleting is idempotent, and syncs even if the live entry is gone already. */
  function DeleteUser(sasl: Sasl, name: string, o: DeleteOutcome): (Sasl, bool) {
    if !o.reached then (sasl, false)
    else if (name in sasl.live || !o.listingWorks) && !o.commandWorks then (sasl, false)
    else (Synced(Sasl(sasl.live - {name}, sasl.volume), o.syncWorks), o.syncWorks && o.replyArrives)
  }

  // -------------------------------------------------------------- the system

  /** `users` maps usernames to their enabled flag; `returned` and `used` collect the
      passwords ever shown to an administrator and ever generated. */
  datatype State = State(users: map<string, bool>, sasl: Sasl, returned: set<Password>, used: set<Password>)
  {
    predicate Enabled(name: string) {
      IsEnabled(users, name)
    }
  }

  predicate IsEnabled(users: map<string, bool>, name: string) {
    name in users && users[name]
  }

  datatype Event =
    | Create(name: string, password: Password, setting: SetOutcome, commits: bool)
    | Disable(name: string, deletion: DeleteOutcome, commits: bool)
    | ReEnable(name: string, password: Password, setting: SetOutcome, commits: bool)
    | Regenerate(name: string, password: Password, setting: SetOutcome, commits: bool)
    | Delete(name: string, deletion: DeleteOutcome, commits: bool)
    | AutoDisable(candidates: seq<string>, deletions: map<string, DeleteOutcome>, commits: bool)
    | Reconcile(listed: bool, deletions: map<string, DeleteOutcome>)
    | RecreateContainer

  function OutcomeFor(deletions: map<string, DeleteOutcome>, name: string): DeleteOutcome {
    if name in deletions then deletions[name] else UNREACHABLE
  }

  function Lower(s: string): string {
    seq(|s|, i requires 0 <= i < |s| => if 'A' <= s[i] <= 'Z' then s[i] - 'A' + 'a' else s[i])
  }

  predicate NameTaken(users: map<string, bool>, name: string) {
    exists other :: other in users && Lower(other) == Lower(name)
  }

  /** A route that sets a password: the database change is flushed first, sasldb2 is
      written next, and only a commit makes the change last and shows the password. */
  function PasswordRoute(s: State, name: string, password: Password, setting: SetOutcome, commits: bool): State {
    var (sasl, ok) := SetUser(s.sasl, name, password, setting);
    var used := s.used + {password};
    if !ok || !commits then s.(sasl := sasl, used := used)
    else s.(sasl := sasl, used := used, returned := s.returned + {password})
  }

  /** One deletion after another; the users whose deletion was confirmed. */
  function DeletedInTurn(sasl: Sasl, names: seq<string>, deletions: map<string, DeleteOutcome>): (Sasl, set<string>) {
    if names == [] then (sasl, {})
    else
      var (before, gone) := DeletedInTurn(sasl, Init(names), deletions);
      var (after, ok) := DeleteUser(before, Last(names), OutcomeFor(deletions, Last(names)));
      (after, if ok then gone + {Last(names)} else gone)
  }

  /** The names in sasldb2 with no enabled user behind them, in the order listed. */
  function Stale(users: map<string, bool>, names: seq<string>): seq<string> {
    if names == [] then []
    else Stale(users, Init(names)) + (if IsEnabled(users, Last(names)) then [] else [Last(names)])
  }

  function EnabledAmong(users: map<string, bool>, names: seq<string>): seq<string> {
    if names == [] then []
    else EnabledAmong(users, Init(names)) + (if IsEnabled(users, Last(names)) then [Last(names)] else [])
  }

  function Step(s: State, e: Event): State {
    match e
    case Create(name, password, setting, commits) =>
      if NameTaken(s.users, name) then s
      else
        var s' := PasswordRoute(s, name, password, setting, commits);
        if SetUser(s.sasl, name, password, setting).1 && commits then s'.(users := s'.users[name := true]) else s'
    case Disable(name, deletion, commits) =>
      if !s.Enabled(name) then s
      else
        var (sasl, ok) := DeleteUser(s.sasl, name, deletion);
        s.(sasl := sasl, users := if ok && commits then s.users[name := false] else s.users)
    case ReEnable(name, password, setting, commits) =>
      if name !in s.users || s.users[name] then s
      else
        var s' := PasswordRoute(s, name, password, setting, commits);
        if SetUser(s.sasl, name, password, setting).1 && commits then s'.(users := s'.users[name := true]) else s'
    case Regenerate(name, password, setting, commits) =>
      if name !in s.users then s else PasswordRoute(s, name, password, setting, commits)
    case Delete(name, deletion, commits) =>
      if name !in s.users then s
      else
        var (sasl, ok) := DeleteUser(s.sasl, name, deletion);
        s.(sasl := sasl, users := if ok && commits then s.users - {name} else s.users)
    case AutoDisable(candidates, deletions, commits) =>
      var (sasl, gone) := DeletedInTurn(s.sasl, EnabledAmong(s.users, candidates), deletions);
      s.(sasl := sasl,
         users := if commits then map name | name in s.users :: s.users[name] && name !in gone else s.users)
    case Reconcile(listed, deletions) =>
      if !listed then s
      else s.(sasl := DeletedInTurn(s.sasl, Stale(s.users, Sorted(s.sasl.live.Keys)), deletions).0)
    case RecreateContainer =>
      s.(sasl := Sasl(s.sasl.volume.GetOr(map[]), s.sasl.volume))
  }

  function Run(s: State, events: seq<Event>): State {
    if events == [] then s else Step(Run(s, Init(events)), Last(events))
  }

  // ------------------------------------------------------------- the invariant

  ghost predicate HoldsNoReturned(s: State, entries: Entries) {
    forall name :: name in entries && !s.Enabled(name) ==> entries[name] !in s.returned
  }

  /** No user that the database does not show as enabled has a password that was ever
      returned to an administrator, neither live nor in the copy. */
  ghost predicate Safe(s: State) {
    HoldsNoReturned(s, s.sasl.live) && (s.sasl.volume.Some? ==> HoldsNoReturned(s, s.sasl.volume.value))
  }

  ghost predicate Known(s: State, entries: Entries) {
    forall name :: name in entries ==> entries[name] in s.used
  }

  ghost predicate Valid(s: State) {
    && s.returned <= s.used
    && Known(s, s.sasl.live) && (s.sasl.volume.Some? ==> Known(s, s.sasl.volume.value))
  }

  /** Passwords do not repeat, and passwords are regenerated for enabled users only: the
      route itself does not check that. */
  ghost predicate Admissible(s: State, e: Event) {
    match e
    case Create(_, password, _, _) => password !in s.used
    case ReEnable(_, password, _, _) => password !in s.used
    case Regenerate(name, password, _, _) => password !in s.used && (name in s.users ==> s.users[name])
    case Disable(_, _, _) => true
    case Delete(_, _, _) => true
    case AutoDisable(_, _, _) => true
    case Reconcile(_, _) => true
    case RecreateContainer => true
  }

  ghost predicate AdmissibleRun(s: State, events: seq<Event>) {
    forall i :: 0 <= i < |events| ==> Admissible(Run(s, events[..i]), events[i])
  }

  lemma DeleteKeeps(s: State, name: string, o: DeleteOutcome)
    requires Safe(s) && Valid(s)
    ensures var (sasl, ok) := DeleteUser(s.sasl, name, o);
            && Safe(s.(sasl := sasl)) && Valid(s.(sasl := sasl))
            && sasl.live.Keys <= s.sasl.live.Keys
            && (ok ==> name !in sasl.live && sasl.volume == Some(sasl.live))
  {
  }

  lemma {:induction false} DeletingKeeps(s: State, names: seq<string>, deletions: map<string, DeleteOutcome>)
    requires Safe(s) && Valid(s)
    ensures var (sasl, gone) := DeletedInTurn(s.sasl, names, deletions);
            && Safe(s.(sasl := sasl)) && Valid(s.(sasl := sasl))
            && sasl.live.Keys <= s.sasl.live.Keys
            && (forall name :: name in gone ==> name in names && name !in sasl.live)
            && (gone != {} ==> sasl.volume.Some? && forall name :: name in gone ==> name !in sasl.volume.value)
  {
    if names != [] {
      DeletingKeeps(s, Init(names), deletions);
      var (before, gone) := DeletedInTurn(s.sasl, Init(names), deletions);
      DeleteKeeps(s.(sasl := before), Last(names), OutcomeFor(deletions, Last(names)));
    }
  }

  lemma PasswordRouteKeeps(s: State, name: string, password: Password, setting: SetOutcome, commits: bool)
    requires Safe(s) && Valid(s) && password !in s.used
    ensures var s' := PasswordRoute(s, name, password, setting, commits);
            var ok := SetUser(s.sasl, name, password, setting).1 && commits;
            && Valid(s')
            && (ok ==> Safe(s'.(users := s'.users[name := true])))
            && (!ok || s.Enabled(name) ==> Safe(s'))
  {
  }

  lemma StepKeepsSafe(s: State, e: Event)
    requires Safe(s) && Valid(s) && Admissible(s, e)
    ensures Safe(Step(s, e)) && Valid(Step(s, e))
  {
    match e
    case Create(name, password, setting, commits) =>
      PasswordRouteKeeps(s, name, password, setting, commits);
    case ReEnable(name, password, setting, commits) =>
      PasswordRouteKeeps(s, name, password, setting, commits);
    case Regenerate(name, password, setting, commits) =>
      PasswordRouteKeeps(s, name, password, setting, commits);
    case Disable(name, deletion, _) =>
      DeleteKeeps(s, name, deletion);
    case Delete(name, deletion, _) =>
      DeleteKeeps(s, name, deletion);
    case AutoDisable(candidates, deletions, _) =>
      DeletingKeeps(s, EnabledAmong(s.users, candidates), deletions);
    case Reconcile(_, deletions) =>
      DeletingKeeps(s, Stale(s.users, Sorted(s.sasl.live.Keys)), deletions);
    case RecreateContainer =>
  }

  /** Over every run of the routes, the auto-disable and reconcile jobs and container
      recreations, with every command, sync, reply and commit free to fail. */
  lemma {:induction false} RunsStaySafe(s: State, events: seq<Event>)
    requires Safe(s) && Valid(s) && AdmissibleRun(s, events)
    ensures Safe(Run(s, events)) && Valid(Run(s, events))
  {
    if events != [] {
      var init := Init(events);
      forall i | 0 <= i < |init| ensures Admissible(Run(s, init[..i]), init[i]) {
        assert init[..i] == events[..i];
      }
      RunsStaySafe(s, init);
      assert events[..|events| - 1] == init;
      StepKeepsSafe(Run(s, init), Last(events));
    }
  }

  /** Regenerating is the one route that does not look at the flag. It keeps the invariant
      under every outcome exactly when the user is enabled. */
  lemma RegenerateIsSafeIffEnabled(s: State, name: string, password: Password)
    requires Safe(s) && Valid(s) && password !in s.used && name in s.users
    ensures (forall setting, commits :: Safe(Step(s, Regenerate(name, password, setting, commits)))) <==> s.users[name]
  {
    if s.users[name] {
      forall setting, commits ensures Safe(Step(s, Regenerate(name, password, setting, commits))) {
        PasswordRouteKeeps(s, name, password, setting, commits);
      }
    } else {
      var s' := Step(s, Regenerate(name, password, SetOutcome(true, true, true, true), true));
      assert name in s'.sasl.live && s'.sasl.live[name] == password && password in s'.returned;
    }
  }

  /** An input: a disabled user whose password is regenerated can log in with it. */
  lemma DisabledUserGetsPassword(password: Password)
    ensures var s := State(map["u" := false], Sasl(map[], None), {}, {});
            var s' := Step(s, Regenerate("u", password, SetOutcome(true, true, true, true), true));
            && Safe(s) && Valid(s) && !s'.Enabled("u")
            && "u" in s'.sasl.live && s'.sasl.live["u"] == password && password in s'.returned
  {
  }

  // ----------------------------------------------------- what success means

  /** A route that shows a password has made it work, live and across a recreation. */
  lemma ShownPasswordsWork(s: State, e: Event)
    requires Valid(s) && Admissible(s, e)
    requires Step(s, e).returned != s.returned
    ensures (e.Create? || e.ReEnable? || e.Regenerate?) && Step(s, e).returned == s.returned + {e.password}
    ensures var s' := Step(s, e);
            && s'.Enabled(e.name) && e.name in s'.sasl.live && s'.sasl.live[e.name] == e.password
            && s'.sasl.volume == Some(s'.sasl.live)
            && Step(s', RecreateContainer).sasl.live == s'.sasl.live
  {
  }

  /** A user that a disable, delete or auto-disable turned off has no credential left,
      neither live nor in the copy: revocation fails closed. */
  lemma RevokedMeansGone(s: State, e: Event, name: string)
    requires Safe(s) && Valid(s) && Admissible(s, e)
    requires s.Enabled(name) && !Step(s, e).Enabled(name)
    ensures var sasl := Step(s, e).sasl;
            name !in sasl.live && sasl.volume.Some? && name !in sasl.volume.value
  {
    match e
    case Disable(other, deletion, _) => DeleteKeeps(s, other, deletion);
    case Delete(other, deletion, _) => DeleteKeeps(s, other, deletion);
    case AutoDisable(candidates, deletions, _) => DeletingKeeps(s, EnabledAmong(s.users, candidates), deletions);
    case Create(_, _, _, _) =>
    case ReEnable(_, _, _, _) =>
    case Regenerate(_, _, _, _) =>
    case Reconcile(_, _) =>
    case RecreateContainer =>
  }

  lemma {:induction false} AllConfirmed(sasl: Sasl, names: seq<string>, deletions: map<string, DeleteOutcome>)
    requires forall name, sasl' :: name in names ==> DeleteUser(sasl', name, OutcomeFor(deletions, name)).1
    ensures var (after, gone) := DeletedInTurn(sasl, names, deletions);
            && (forall name :: name in names ==> name !in after.live)
            && after.live.Keys <= sasl.live.Keys
  {
    if names != [] {
      assert Last(names) in names;
      AllConfirmed(sasl, Init(names), deletions);
      assert names == Init(names) + [Last(names)];
    }
  }

  lemma {:induction false} StaleIsDisabled(users: map<string, bool>, names: seq<string>)
    ensures forall name :: name in Stale(users, names) <==> name in names && !IsEnabled(users, name)
  {
    if names != [] {
      StaleIsDisabled(users, Init(names));
      assert names == Init(names) + [Last(names)];
    }
  }

  /** A reconciliation that meets no failure leaves nobody in sasldb2 but enabled users. */
  lemma ReconcileRemovesStrangers(s: State, deletions: map<string, DeleteOutcome>)
    requires forall name :: name in s.sasl.live ==> OutcomeFor(deletions, name) == DeleteOutcome(true, true, true, true, true)
    ensures forall name :: name in Step(s, Reconcile(true, deletions)).sasl.live ==> s.Enabled(name) && name in s.sasl.live
  {
    var names := Sorted(s.sasl.live.Keys);
    StaleIsDisabled(s.users, names);
    AllConfirmed(s.sasl, Stale(s.users, names), deletions);
  }

  // ------------------------------------------------- whom a step does not touch

  function EntryOf(entries: Entries, name: string): Option<Password> {
    if name in entries then Some(entries[name]) else None
  }

  /** The users whose credential an event is about: the one it names, the enabled ones among
      the candidates of an auto-disable, and for a reconciliation those not enabled. */
  predicate Concerns(s: State, e: Event, name: string) {
    match e
    case AutoDisable(candidates, _, _) => name in candidates && s.Enabled(name)
    case Reconcile(_, _) => !s.Enabled(name)
    case RecreateContainer => true
    case _ => name == e.name
  }

  /** In the copy, an entry is as it was, or as it was live. */
  ghost predicate CopyFollows(before: Sasl, after: Sasl, name: string) {
    && (before.volume.Some? ==> after.volume.Some?)
    && (after.volume.Some? ==>
          || (before.volume.Some? && EntryOf(after.volume.value, name) == EntryOf(before.volume.value, name))
          || EntryOf(after.volume.value, name) == EntryOf(before.live, name))
  }

  lemma {:induction false} DeletingSpares(sasl: Sasl, names: seq<string>, deletions: map<string, DeleteOutcome>, name: string)
    requires name !in names
    ensures var after := DeletedInTurn(sasl, names, deletions).0;
            EntryOf(after.live, name) == EntryOf(sasl.live, name) && CopyFollows(sasl, after, name)
  {
    if names != [] {
      assert names == Init(names) + [Last(names)];
      DeletingSpares(sasl, Init(names), deletions, name);
    }
  }

  lemma {:induction false} EnabledAmongAre(users: map<string, bool>, names: seq<string>)
    ensures forall name :: name in EnabledAmong(users, names) <==> name in names && IsEnabled(users, name)
  {
    if names != [] {
      EnabledAmongAre(users, Init(names));
      assert names == Init(names) + [Last(names)];
    }
  }

  /** No event touches the credential or the flag of a user it is not about, wherever it fails. */
  lemma OthersKeepTheirCredentials(s: State, e: Event, name: string)
    requires !Concerns(s, e, name)
    ensures var s' := Step(s, e);
            && EntryOf(s'.sasl.live, name) == EntryOf(s.sasl.live, name) && CopyFollows(s.sasl, s'.sasl, name)
            && (name in s'.users <==> name in s.users) && s'.Enabled(name) == s.Enabled(name)
  {
    hide Sorted;
    match e
    case AutoDisable(candidates, deletions, _) =>
      EnabledAmongAre(s.users, candidates);
      DeletingSpares(s.sasl, EnabledAmong(s.users, candidates), deletions, name);
      GoneAreNamed(s.sasl, EnabledAmong(s.users, candidates), deletions);
    case Reconcile(_, deletions) =>
      StaleIsDisabled(s.users, Sorted(s.sasl.live.Keys));
      DeletingSpares(s.sasl, Stale(s.users, Sorted(s.sasl.live.Keys)), deletions, name);
    case _ =>
  }

  lemma {:induction false} GoneAreNamed(sasl: Sasl, names: seq<string>, deletions: map<string, DeleteOutcome>)
    ensures forall name :: name in DeletedInTurn(sasl, names, deletions).1 ==> name in names
  {
    if names != [] {
      GoneAreNamed(sasl, Init(names), deletions);
    }
  }

  /** A reconciliation leaves every enabled user's password as it is, live and in effect. */
  lemma ReconcileKeepsEnabled(s: State, listed: bool, deletions: map<string, DeleteOutcome>, name: string)
    requires s.Enabled(name) && name in s.sasl.live
    ensures var s' := Step(s, Reconcile(listed, deletions));
            name in s'.sasl.live && s'.sasl.live[name] == s.sasl.live[name] && s'.Enabled(name)
  {
    OthersKeepTheirCredentials(s, Reconcile(listed, deletions), name);
  }

  // --------------------------------------------- what a step does if nothing fails

  const SET: SetOutcome := SetOutcome(true, true, true, true)
  const DELETED: DeleteOutcome := DeleteOutcome(true, true, true, true, true)

  /** Nothing fails: not a command, not a sync, not a reply, not a commit. */
  predicate AllWorks(e: Event) {
    match e
    case Create(_, _, setting, commits) => setting == SET && commits
    case Disable(_, deletion, commits) => deletion == DELETED && commits
    case ReEnable(_, _, setting, commits) => setting == SET && commits
    case Regenerate(_, _, setting, commits) => setting == SET && commits
    case Delete(_, deletion, commits) => deletion == DELETED && commits
    case _ => true
  }

  /** Whether a route applies: a new name, an enabled user, a disabled one, or any user. */
  predicate Applies(s: State, e: Event) {
    match e
    case Create(name, _, _, _) => !NameTaken(s.users, name)
    case Disable(name, _, _) => s.Enabled(name)
    case ReEnable(name, _, _, _) => name in s.users && !s.users[name]
    case Regenerate(name, _, _, _) => name in s.users
    case Delete(name, _, _) => name in s.users
    case _ => true
  }

  /** A route of one user that applies and meets no failure does all of what it is for; one
      that does not apply does nothing. */
  lemma WorkingRoutesWork(s: State, e: Event)
    requires !e.AutoDisable? && !e.Reconcile? && !e.RecreateContainer?
    ensures !Applies(s, e) ==> Step(s, e) == s
    ensures Applies(s, e) && AllWorks(e) ==>
              var s' := Step(s, e);
              if e.Disable? || e.Delete? then
                && s'.sasl.live == s.sasl.live - {e.name} && s'.sasl.volume == Some(s'.sasl.live)
                && s'.users == (if e.Disable? then s.users[e.name := false] else s.users - {e.name})
              else
                && s'.sasl.live == s.sasl.live[e.name := e.password] && s'.sasl.volume == Some(s'.sasl.live)
                && s'.users == (if e.Regenerate? then s.users else s.users[e.name := true])
                && s'.returned == s.returned + {e.password}
  {
  }

  /** An auto-disable that meets no failure disables exactly the enabled candidates and
      removes their credentials. */
  lemma WorkingAutoDisable(s: State, candidates: seq<string>, deletions: map<string, DeleteOutcome>)
    requires forall name :: name in candidates ==> OutcomeFor(deletions, name) == DELETED
    ensures var s' := Step(s, AutoDisable(candidates, deletions, true));
            && s'.users == map name | name in s.users :: s.users[name] && name !in candidates
    ensures forall name :: name in Step(s, AutoDisable(candidates, deletions, true)).sasl.live ==>
              !(name in candidates && s.Enabled(name))
  {
    var selected := EnabledAmong(s.users, candidates);
    EnabledAmongAre(s.users, candidates);
    AllConfirmed(s.sasl, selected, deletions);
    AllGone(s.sasl, selected, deletions);
    GoneAreNamed(s.sasl, selected, deletions);
  }

  lemma {:induction false} AllGone(sasl: Sasl, names: seq<string>, deletions: map<string, DeleteOutcome>)
    requires forall name, sasl' :: name in names ==> DeleteUser(sasl', name, OutcomeFor(deletions, name)).1
    ensures forall name :: name in names ==> name in DeletedInTurn(sasl, names, deletions).1
  {
    if names != [] {
      assert Last(names) in names && names == Init(names) + [Last(names)];
      AllGone(sasl, Init(names), deletions);
    }
  }

  /** A step that fails anywhere, or does not commit, shows nothing and changes no flag. */
  lemma FailuresShowNothing(s: State, e: Event)
    requires e.Create? || e.Disable? || e.ReEnable? || e.Regenerate? || e.Delete?
    requires !e.commits
             || ((e.Create? || e.ReEnable? || e.Regenerate?) && e.setting != SET)
             || ((e.Disable? || e.Delete?) && !(e.deletion.reached && e.deletion.syncWorks && e.deletion.replyArrives))
             || ((e.Disable? || e.Delete?) && e.name in s.sasl.live && !e.deletion.commandWorks)
    ensures Step(s, e).users == s.users && Step(s, e).returned == s.returned
  {
  }

  // ---------------------------------------------------------- names stay apart

  /** Postfix folds user names to lower case, so no two may differ in case only. */
  ghost predicate NamesApart(users: map<string, bool>) {
    forall a, b :: a in users && b in users && Lower(a) == Lower(b) ==> a == b
  }

  lemma StepKeepsNamesApart(s: State, e: Event)
    requires NamesApart(s.users)
    ensures NamesApart(Step(s, e).users)
  {
    hide Lower;
  }

  /** Over every run, user names that are the same login to Postfix are the same name. */
  lemma {:induction false} NamesStayApart(s: State, events: seq<Event>)
    requires NamesApart(s.users)
    ensures NamesApart(Run(s, events).users)
  {
    hide NamesApart, Step;
    if events != [] {
      NamesStayApart(s, Init(events));
      StepKeepsNamesApart(Run(s, Init(events)), Last(events));
    }
  }

  // --------------------------------------------------------- the code itself

  lemma NextStale(users: map<string, bool>, names: seq<string>, i: nat)
    requires i < |names|
    ensures names[..i + 1] == names[..i] + [names[i]]
    ensures Stale(users, names[..i + 1]) ==
              if IsEnabled(users, names[i]) then Stale(users, names[..i]) else Stale(users, names[..i]) + [names[i]]
  {
    assert Init(names[..i + 1]) == names[..i];
  }

  lemma NoneStale(users: map<string, bool>, sasl: Sasl, deletions: map<string, DeleteOutcome>)
    ensures DeletedInTurn(sasl, Stale(users, []), deletions).0 == sasl
  {
  }

  lemma NextDeleted(sasl: Sasl, names: seq<string>, name: string, deletions: map<string, DeleteOutcome>)
    ensures DeletedInTurn(sasl, names + [name], deletions).0 ==
              DeleteUser(DeletedInTurn(sasl, names, deletions).0, name, OutcomeFor(deletions, name)).0
  {
    hide DeleteUser;
    assert Init(names + [name]) == names;
  }

  lemma StepStaysSafe(s: State, e: Event)
    ensures Safe(s) && Valid(s) && Admissible(s, e) ==> Safe(Step(s, e)) && Valid(Step(s, e))
  {
    hide Safe, Valid, Admissible, Step;
    if Safe(s) && Valid(s) && Admissible(s, e) {
      StepKeepsSafe(s, e);
    }
  }

  /** The routes and jobs, with the two copies of sasldb2 they write through the control
      surface. What a route has flushed but not committed stays local to it. */
  class CredentialStores {
    var users: map<string, bool>
    var live: Entries
    var volume: Option<Entries>
    ghost var returned: set<Password>
    ghost var used: set<Password>

    ghost function Current(): State
      reads this
    {
      State(users, Sasl(live, volume), returned, used)
    }

    /** No user that is not enabled has a password that was ever shown, live or in the copy. */
    ghost predicate IsSafe()
      reads this
    {
      Safe(Current()) && Valid(Current())
    }

    constructor ()
      ensures IsSafe() && Current() == State(map[], Sasl(map[], None), {}, {})
    {
      users, live, volume, returned, used := map[], map[], None, {}, {};
    }

    method SyncSasldbToVolume(works: bool) returns (ok: bool)
      modifies this`volume
      ensures Sasl(live, volume) == Synced(Sasl(live, old(volume)), works) && ok == works
    {
      if works {
        volume := Some(live);
      }
      ok := works;
    }

    method SaslSetUser(name: string, password: Password, o: SetOutcome) returns (ok: bool)
      modifies this`live, this`volume
      ensures (Sasl(live, volume), ok) == SetUser(Sasl(old(live), old(volume)), name, password, o)
      ensures live == if o.reached && o.commandWorks then old(live)[name := password] else old(live)
      ensures volume == if o.reached && o.commandWorks && o.syncWorks then Some(live) else old(volume)
      ensures ok <==> o.reached && o.commandWorks && o.syncWorks && o.replyArrives
    {
      if !o.reached || !o.commandWorks {
        return false;
      }
      live := live[name := password];
      var synced := SyncSasldbToVolume(o.syncWorks);
      ok := synced && o.replyArrives;
    }

    method SaslDeleteUser(name: string, o: DeleteOutcome) returns (ok: bool)
      modifies this`live, this`volume
      ensures (Sasl(live, volume), ok) == DeleteUser(Sasl(old(live), old(volume)), name, o)
      ensures live == if o.reached && o.commandWorks then old(live) - {name} else old(live)
      ensures ok ==> name !in live && volume == Some(live)
      ensures volume == old(volume) || (o.syncWorks && volume == Some(live))
      ensures o.reached && o.syncWorks && o.replyArrives && (o.commandWorks || (o.listingWorks && name !in old(live))) ==> ok
    {
      if !o.reached {
        return false;
      }
      var mayExist := if o.listingWorks then name in live else true;
      if mayExist {
        if !o.commandWorks {
          return false;
        }
        live := live - {name};
      }
      assert live == old(live) - {name};
      var synced := SyncSasldbToVolume(o.syncWorks);
      ok := synced && o.replyArrives;
    }

    method CreateUser(name: string, password: Password, o: SetOutcome, commits: bool) returns (shown: Option<Password>)
      modifies this
      ensures Current() == Step(old(Current()), Create(name, password, o, commits))
      ensures shown.Some? ==> shown.value == password
      ensures returned == if shown.Some? then old(returned) + {password} else old(returned)
      ensures old(IsSafe()) && Admissible(old(Current()), Create(name, password, o, commits)) ==> IsSafe()
    {
      StepStaysSafe(Current(), Create(name, password, o, commits));
      hide Safe, Valid, Admissible;
      if NameTaken(users, name) {
        return None;
      }
      used := used + {password};
      var flushed := users[name := true];
      var ok := SaslSetUser(name, password, o);
      if !ok || !commits {
        return None;
      }
      users := flushed;
      returned := returned + {password};
      return Some(password);
    }

    /** The `enabled` transitions of the update route. */
    method SetEnabled(name: string, enabled: bool, password: Password, setting: SetOutcome, deletion: DeleteOutcome, commits: bool)
      returns (shown: Option<Password>)
      modifies this
      ensures Current() == Step(old(Current()), if enabled then ReEnable(name, password, setting, commits) else Disable(name, deletion, commits))
      ensures shown.Some? ==> enabled && shown.value == password
      ensures returned == if shown.Some? then old(returned) + {password} else old(returned)
      ensures old(IsSafe()) && Admissible(old(Current()), if enabled then ReEnable(name, password, setting, commits) else Disable(name, deletion, commits)) ==> IsSafe()
    {
      StepStaysSafe(Current(), if enabled then ReEnable(name, password, setting, commits) else Disable(name, deletion, commits));
      hide Safe, Valid, Admissible;
      if name !in users || users[name] == enabled {
        return None;
      }
      var flushed := users[name := enabled];
      if !enabled {
        var ok := SaslDeleteUser(name, deletion);
        if ok && commits {
          users := flushed;
        }
        return None;
      }
      used := used + {password};
      var ok := SaslSetUser(name, password, setting);
      if !ok || !commits {
        return None;
      }
      users := flushed;
      returned := returned + {password};
      return Some(password);
    }

    method RegeneratePassword(name: string, password: Password, o: SetOutcome, commits: bool) returns (shown: Option<Password>)
      modifies this
      ensures Current() == Step(old(Current()), Regenerate(name, password, o, commits))
      ensures shown.Some? ==> shown.value == password
      ensures returned == if shown.Some? then old(returned) + {password} else old(returned)
      ensures old(IsSafe()) && Admissible(old(Current()), Regenerate(name, password, o, commits)) ==> IsSafe()
    {
      StepStaysSafe(Current(), Regenerate(name, password, o, commits));
      hide Safe, Valid, Admissible;
      if name !in users {
        return None;
      }
      used := used + {password};
      var ok := SaslSetUser(name, password, o);
      if !ok || !commits {
        return None;
      }
      returned := returned + {password};
      return Some(password);
    }

    method DeleteUserRoute(name: string, deletion: DeleteOutcome, commits: bool)
      modifies this
      ensures Current() == Step(old(Current()), Delete(name, deletion, commits))
      ensures old(IsSafe()) ==> IsSafe()
    {
      StepStaysSafe(Current(), Delete(name, deletion, commits));
      hide Safe, Valid;
      if name !in users {
        return;
      }
      var ok := SaslDeleteUser(name, deletion);
      if ok && commits {
        users := users - {name};
      }
    }

    method RunAutoDisable(candidates: seq<string>, deletions: map<string, DeleteOutcome>, commits: bool)
      modifies this
      ensures Current() == Step(old(Current()), AutoDisable(candidates, deletions, commits))
      ensures old(IsSafe()) ==> IsSafe()
    {
      StepStaysSafe(Current(), AutoDisable(candidates, deletions, commits));
      hide Safe, Valid;
      var selected := EnabledAmong(users, candidates);
      var pending := users;
      ghost var gone := {};
      for i := 0 to |selected|
        invariant (Sasl(live, volume), gone) == DeletedInTurn(old(Sasl(live, volume)), selected[..i], deletions)
        invariant users == old(users) && returned == old(returned) && used == old(used)
        invariant pending == map name | name in users :: users[name] && name !in gone
      {
        assert Init(selected[..i + 1]) == selected[..i];
        var ok := SaslDeleteUser(selected[i], OutcomeFor(deletions, selected[i]));
        if !ok {
          continue;
        }
        if selected[i] in pending {
          pending := pending[selected[i] := false];
        }
        gone := gone + {selected[i]};
      }
      assert selected[..|selected|] == selected;
      if commits {
        users := pending;
      }
    }

    method ReconcileSasldb(listed: bool, deletions: map<string, DeleteOutcome>)
      modifies this
      ensures Current() == Step(old(Current()), Reconcile(listed, deletions))
      ensures old(IsSafe()) ==> IsSafe()
    {
      StepStaysSafe(Current(), Reconcile(listed, deletions));
      hide Safe, Valid;
      hide Sorted, DeleteUser, Stale, DeletedInTurn;
      if !listed {
        return;
      }
      var names := Sorted(live.Keys);
      ghost var s := Current();
      NoneStale(s.users, s.sasl, deletions);
      for i := 0 to |names|
        invariant Sasl(live, volume) == DeletedInTurn(s.sasl, Stale(s.users, names[..i]), deletions).0
        invariant users == old(users) && returned == old(returned) && used == old(used)
      {
        NextStale(s.users, names, i);
        if names[i] in users && users[names[i]] {
          continue;
        }
        NextDeleted(s.sasl, Stale(s.users, names[..i]), names[i], deletions);
        var _ := SaslDeleteUser(names[i], OutcomeFor(deletions, names[i]));
      }
      assert names[..|names|] == names;
    }

    /** The entry point of a new postfix container. */
    method Recreate()
      modifies this`live
      ensures Current() == Step(old(Current()), RecreateContainer)
      ensures live == old(volume).GetOr(map[])
      ensures old(IsSafe()) ==> IsSafe()
    {
      StepStaysSafe(Current(), RecreateContainer);
      hide Safe, Valid;
      live := volume.GetOr(map[]);
    }
  }
}
