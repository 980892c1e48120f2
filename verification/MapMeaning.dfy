/**
 What the rendered maps mean to whoever reads them back: nothing the database says
 about routing is lost or blurred, and a checksum stands for one configuration.
 */
module MapMeaning {
  import opened Prelude
  import opened Text
  import opened ConfigMaps

  // ------------------------------------------------- schema restrictions

  ghost predicate Printable(s: string) {
    forall c :: c in s ==> c >= ' ' && c != '\U{7F}'
  }

  /** The login name of an upstream account: no white space and no colon, though the
      schema does not exclude other control characters. */
  ghost predicate LoginName(s: string) {
    forall c :: c in s ==> c !in {' ', '\t', '\n', '\r', '\U{0B}', '\U{0C}', ':'}
  }

  /** What the request schemas guarantee about the tables. */
  ghost predicate SchemaValid(db: Db) {
    && (forall a :: a in db.senders ==> Printable(a))
    && (forall u :: u in db.users ==> u != "" && Printable(u) && ',' !in u)
    && (forall id :: id in db.accounts ==>
          var account := db.accounts[id];
          && Printable(account.host) && ']' !in account.host
          && LoginName(account.username) && Printable(account.password)
          && (account.perHour.Some? ==> account.perHour.value >= 1))
  }

  // --------------------------------------------------- reading a map back

  /** A source line as `postmap` splits it: at the first tab. */
  function ParseLine(line: string): Entry {
    var k := IndexOf(line, '\t');
    Entry(line[..k], if k < |line| then line[k + 1..] else "")
  }

  function ParseLines(lines: seq<string>): seq<Entry> {
    seq(|lines|, i requires 0 <= i < |lines| => ParseLine(lines[i]))
  }

  /** A map source file: lines, each ended by a line feed. */
  function ParseMap(text: string): seq<Entry> {
    ParseLines(Init(Split(text, '\n')))
  }

  ghost predicate Storable(entries: seq<Entry>) {
    forall e :: e in entries ==> '\t' !in e.key && '\n' !in e.key && '\n' !in e.value
  }

  lemma {:induction false} SplitUnlines(lines: seq<string>)
    requires Without(lines, '\n')
    ensures Split(Unlines(lines), '\n') == lines + [""]
  {
    if lines != [] {
      assert lines[0] in lines;
      SplitAtFirst(lines[0], '\n', Unlines(lines[1..]));
      SplitUnlines(lines[1..]);
      assert lines[0] + "\n" + Unlines(lines[1..]) == lines[0] + ['\n'] + Unlines(lines[1..]);
      assert [lines[0]] + (lines[1..] + [""]) == lines + [""];
    }
  }

  /** Any map whose keys have no tab and whose fields have no line break reads back as itself. */
  lemma MapTextIsLossless(entries: seq<Entry>)
    requires Storable(entries)
    ensures ParseMap(MapText(entries)) == entries
  {
    hide Split, Unlines, IndexOf;
    var lines := EntryLines(entries);
    forall line | line in lines ensures '\n' !in line {
      var i :| 0 <= i < |lines| && lines[i] == line;
      assert entries[i] in entries;
    }
    SplitUnlines(lines);
    assert Init(lines + [""]) == lines;
    forall i | 0 <= i < |entries| ensures ParseLine(lines[i]) == entries[i] {
      var e := entries[i];
      assert e in entries;
      FirstIndex(e.key, '\t', e.value);
      assert lines[i] == e.key + ['\t'] + e.value;
    }
  }

  // ------------------------------------------------ reading a value back

  function ParseNexthop(value: string): (string, nat) {
    var k := IndexOf(value, ']');
    if 1 <= k && k + 2 <= |value| then (value[1..k], FromDecimal(value[k + 2..])) else ("", 0)
  }

  lemma NexthopIsLossless(account: Account)
    requires ']' !in account.host
    ensures ParseNexthop(Nexthop(account)) == (account.host, account.port)
  {
    var value := Nexthop(account);
    FirstIndex("[" + account.host, ']', ":" + Decimal(account.port));
    assert value == ("[" + account.host) + [']'] + (":" + Decimal(account.port));
    assert value[1..|account.host| + 1] == account.host;
    assert value[|account.host| + 3..] == Decimal(account.port);
    DecimalRoundTrip(account.port);
  }

  function ParseCredentials(value: string): (string, string) {
    var k := IndexOf(value, ':');
    (value[..k], if k < |value| then value[k + 1..] else "")
  }

  /** A password may contain colons: only the first one separates. */
  lemma CredentialsAreLossless(account: Account)
    requires ':' !in account.username
    ensures ParseCredentials(Credentials(account)) == (account.username, account.password)
  {
    FirstIndex(account.username, ':', account.password);
    assert Credentials(account) == account.username + [':'] + account.password;
  }

  datatype TransportKind = Plain | ImplicitTls | Paced(account: nat) | Unknown

  function ParseTransport(value: string): TransportKind {
    if value == "smtp:" then Plain
    else if value == "smtp_implicit_tls:" then ImplicitTls
    else if |value| > |RATE_LIMITED_PREFIX| && value[..|RATE_LIMITED_PREFIX|] == RATE_LIMITED_PREFIX then
      Paced(FromDecimal(value[|RATE_LIMITED_PREFIX|..|value| - 1]))
    else Unknown
  }

  function KindOf(id: nat, account: Account): TransportKind {
    if account.perHour.Some? then Paced(id) else if account.tlsMode.Implicit? then ImplicitTls else Plain
  }

  /** A transport name says which kind it is and, if paced, for which account. */
  lemma TransportIsLossless(id: nat, account: Account)
    ensures ParseTransport(TransportNameFor(id, account) + ":") == KindOf(id, account)
  {
    var value := TransportNameFor(id, account) + ":";
    if account.perHour.Some? {
      assert value[0] == 'r';
      assert value[..|RATE_LIMITED_PREFIX|] == RATE_LIMITED_PREFIX;
      assert value[|RATE_LIMITED_PREFIX|..|value| - 1] == Decimal(id);
      DecimalRoundTrip(id);
    } else {
      assert "smtp" + ":" == "smtp:";
      assert "smtp_implicit_tls" + ":" == "smtp_implicit_tls:";
      assert |"smtp:"| != |"smtp_implicit_tls:"|;
    }
  }

  // ------------------------------------------------ the routing, read back

  /** Everything Postfix can learn from the maps about one address. */
  datatype Route = Route(address: string, relayhost: (string, nat), login: (string, string), transport: TransportKind)

  /** The routing of the database, address by address. */
  function RoutesOf(db: Db): seq<Route> {
    var addresses := Sorted(db.Routed());
    assert forall i :: 0 <= i < |addresses| ==> addresses[i] in db.Routed();
    seq(|addresses|, i requires 0 <= i < |addresses| =>
      var account := db.AccountOf(addresses[i]);
      Route(addresses[i], (account.host, account.port), (account.username, account.password),
            KindOf(db.senders[addresses[i]].account, account)))
  }

  function OwnersOf(db: Db): seq<(string, seq<string>)> {
    var addresses := Sorted(db.Authorised());
    seq(|addresses|, i requires 0 <= i < |addresses| => (addresses[i], Sorted(db.Owners(addresses[i]))))
  }

  function ReadRoutes(maps: Maps): Option<seq<Route>> {
    var relayhosts, passwords, transports := ParseMap(maps.relayhost), ParseMap(maps.passwords), ParseMap(maps.transport);
    if |passwords| != |relayhosts| || |transports| != |relayhosts| then None
    else if exists i :: 0 <= i < |relayhosts| && !(relayhosts[i].key == passwords[i].key == transports[i].key) then None
    else Some(seq(|relayhosts|, i requires 0 <= i < |relayhosts| =>
           Route(relayhosts[i].key, ParseNexthop(relayhosts[i].value), ParseCredentials(passwords[i].value),
                 ParseTransport(transports[i].value))))
  }

  function ReadOwners(maps: Maps): seq<(string, seq<string>)> {
    var entries := ParseMap(maps.login);
    seq(|entries|, i requires 0 <= i < |entries| => (entries[i].key, Split(entries[i].value, ',')))
  }

  lemma {:induction false} JoinIsPrintable(parts: seq<string>)
    requires forall p :: p in parts ==> Printable(p)
    ensures Printable(Join(parts, ','))
  {
    if |parts| > 1 {
      assert parts[0] in parts;
      JoinIsPrintable(parts[1..]);
    }
  }

  lemma ValueHasNoLineBreak(column: Column, id: nat, account: Account)
    requires Printable(account.host) && LoginName(account.username) && Printable(account.password)
    ensures '\n' !in ValueOf(column, id, account)
  {
    hide Decimal;
    match column
    case Relayhost => assert '\n' !in "[" + account.host + "]:" + Decimal(account.port);
    case Password =>
    case Transport => assert '\n' !in RATE_LIMITED_PREFIX + Decimal(id);
  }

  lemma SenderEntriesAreStorable(db: Db, column: Column)
    requires SchemaValid(db)
    ensures Storable(SenderEntries(db, column))
  {
    hide Sorted, ValueOf, LoginName;
    var addresses, entries := Sorted(db.Routed()), SenderEntries(db, column);
    forall e | e in entries ensures '\t' !in e.key && '\n' !in e.key && '\n' !in e.value {
      var i :| 0 <= i < |entries| && entries[i] == e;
      assert addresses[i] in db.Routed();
      ValueHasNoLineBreak(column, db.senders[addresses[i]].account, db.AccountOf(addresses[i]));
    }
  }

  lemma LoginEntriesAreStorable(db: Db)
    requires SchemaValid(db)
    ensures Storable(LoginEntries(db))
    ensures forall a :: a in db.senders ==> Without(Sorted(db.Owners(a)), ',')
  {
    hide Sorted, Join;
    var addresses := Sorted(db.Authorised());
    forall i | 0 <= i < |addresses| ensures Printable(addresses[i]) && Printable(LoginEntry(db, addresses[i]).value) {
      assert addresses[i] in db.Authorised();
      JoinIsPrintable(Sorted(db.Owners(addresses[i])));
    }
  }

  /** Reading the five maps back gives exactly the routing and the authorisations of the
      database, for every database the schemas admit, colons in passwords included. */
  lemma MapsAreLossless(db: Db)
    requires SchemaValid(db)
    ensures ReadRoutes(RenderedMaps(db)) == Some(RoutesOf(db))
    ensures ReadOwners(RenderedMaps(db)) == OwnersOf(db)
  {
    hide Sorted, Split, MapText, ParseMap, Nexthop, Credentials, ParseTransport, Join, ParseNexthop, ParseCredentials, TransportNameFor;
    SenderEntriesAreStorable(db, Relayhost);
    SenderEntriesAreStorable(db, Password);
    SenderEntriesAreStorable(db, Transport);
    LoginEntriesAreStorable(db);
    MapTextIsLossless(SenderEntries(db, Relayhost));
    MapTextIsLossless(SenderEntries(db, Password));
    MapTextIsLossless(SenderEntries(db, Transport));
    MapTextIsLossless(LoginEntries(db));
    var addresses := Sorted(db.Routed());
    forall i | 0 <= i < |addresses|
      ensures ParseNexthop(SenderEntries(db, Relayhost)[i].value) == RoutesOf(db)[i].relayhost
      ensures ParseCredentials(SenderEntries(db, Password)[i].value) == RoutesOf(db)[i].login
      ensures ParseTransport(SenderEntries(db, Transport)[i].value) == RoutesOf(db)[i].transport
    {
      assert addresses[i] in db.Routed();
      var id := db.senders[addresses[i]].account;
      var account := db.AccountOf(addresses[i]);
      NexthopIsLossless(account);
      CredentialsAreLossless(account);
      TransportIsLossless(id, account);
    }
    assert ReadRoutes(RenderedMaps(db)).value == RoutesOf(db);
    var authorised := Sorted(db.Authorised());
    forall i | 0 <= i < |authorised|
      ensures Split(LoginEntries(db)[i].value, ',') == Sorted(db.Owners(authorised[i]))
    {
      assert authorised[i] in db.Authorised();
      assert |Sorted(db.Owners(authorised[i]))| != 0;
      SplitUndoesJoin(Sorted(db.Owners(authorised[i])), ',');
    }
  }

  // ------------------------------------------------------ consequences

  lemma RouteAt(db: Db, address: string) returns (i: nat)
    requires db.Routes(address)
    ensures i < |RoutesOf(db)| && RoutesOf(db)[i].address == address
    ensures RoutesOf(db)[i].transport == KindOf(db.senders[address].account, db.AccountOf(address))
  {
    hide Sorted, KindOf;
    var routed := Sorted(db.Routed());
    assert address in db.Routed();
    i :| 0 <= i < |routed| && routed[i] == address;
  }

  lemma RoutesComeFromSenders(db: Db, i: nat)
    requires i < |RoutesOf(db)|
    ensures var r := RoutesOf(db)[i];
            db.Routes(r.address) && r.transport == KindOf(db.senders[r.address].account, db.AccountOf(r.address))
  {
    hide Sorted, KindOf;
    assert Sorted(db.Routed())[i] in db.Routed();
  }

  lemma OwnersHaveRoutes(db: Db, i: nat)
    requires i < |OwnersOf(db)|
    ensures OwnersOf(db)[i].1 != [] && db.Routes(OwnersOf(db)[i].0)
  {
    hide Sorted;
    var address := Sorted(db.Authorised())[i];
    assert address in db.Authorised();
    assert |Sorted(db.Owners(address))| == |db.Owners(address)|;
  }

  /** No address can be sent as without having a route: the owners map never runs ahead
      of the other three, in any database. */
  lemma AuthorisedAreRouted(db: Db)
    requires SchemaValid(db)
    ensures ReadRoutes(RenderedMaps(db)).Some?
    ensures forall o :: o in ReadOwners(RenderedMaps(db)) ==>
              o.1 != [] && exists r :: r in ReadRoutes(RenderedMaps(db)).value && r.address == o.0
  {
    hide *;
    MapsAreLossless(db);
    forall o | o in OwnersOf(db) ensures o.1 != [] && exists r :: r in RoutesOf(db) && r.address == o.0 {
      var i :| 0 <= i < |OwnersOf(db)| && OwnersOf(db)[i] == o;
      OwnersHaveRoutes(db, i);
      var j := RouteAt(db, o.0);
      assert RoutesOf(db)[j] in RoutesOf(db);
    }
  }

  /** Which mail is routed, and how: an address has a route, and only one, if and only if its
      sender and the sender's account are enabled, and it is that account's. */
  lemma RoutesOfTheTables(db: Db, address: string)
    requires SchemaValid(db)
    ensures ReadRoutes(RenderedMaps(db)).Some?
    ensures var read := ReadRoutes(RenderedMaps(db)).value;
            && ((exists i :: 0 <= i < |read| && read[i].address == address) <==>
                  && address in db.senders && db.senders[address].enabled
                  && db.senders[address].account in db.accounts && db.accounts[db.senders[address].account].enabled)
            && (forall i, j :: 0 <= i < j < |read| ==> read[i].address != read[j].address)
            && (forall i :: 0 <= i < |read| && read[i].address == address ==>
                  var id := db.senders[address].account;
                  var account := db.accounts[id];
                  && read[i].relayhost == (account.host, account.port)
                  && read[i].login == (account.username, account.password)
                  && read[i].transport == (if account.perHour.Some? then Paced(id)
                                           else if account.tlsMode == Implicit then ImplicitTls else Plain))
  {
    hide ReadRoutes, RenderedMaps, SchemaValid, Sorted;
    MapsAreLossless(db);
    var routed, routes := Sorted(db.Routed()), RoutesOf(db);
    AscendingIsDistinct(routed);
    assert forall i :: 0 <= i < |routes| ==> routes[i].address == routed[i] && routed[i] in db.Routed();
    if db.Routes(address) {
      var i := RouteAt(db, address);
    }
  }

  /** Who may send as what: a user as an address if and only if the address is routed and the
      user is enabled and was granted it. */
  lemma OwnersOfTheTables(db: Db, user: string, address: string)
    requires SchemaValid(db)
    ensures (exists o :: o in ReadOwners(RenderedMaps(db)) && o.0 == address && user in o.1) <==>
              && address in db.senders && db.senders[address].enabled
              && db.senders[address].account in db.accounts && db.accounts[db.senders[address].account].enabled
              && user in db.users && db.users[user] && (user, address) in db.grants
  {
    hide ReadOwners, RenderedMaps, SchemaValid, Sorted;
    MapsAreLossless(db);
    var authorised, owners := Sorted(db.Authorised()), OwnersOf(db);
    if o :| o in owners && o.0 == address && user in o.1 {
      var i :| 0 <= i < |owners| && owners[i] == o;
      assert authorised[i] in db.Authorised();
      assert user in db.Owners(address);
    }
    if db.Routes(address) && user in db.Owners(address) {
      assert address in db.Authorised();
      var i :| 0 <= i < |authorised| && authorised[i] == address;
      assert owners[i] in owners && user in owners[i].1;
    }
  }

  lemma PacedAreReferenced(db: Db, id: nat)
    requires id in PacedAccounts(db)
    ensures exists r :: r in RoutesOf(db) && r.transport == Paced(id)
  {
    hide RoutesOf;
    var a :| a in db.senders && db.Routes(a) && db.AccountOf(a).perHour.Some? && db.senders[a].account == id;
    var i := RouteAt(db, a);
    assert RoutesOf(db)[i] in RoutesOf(db);
  }

  lemma ReferencedArePaced(db: Db, i: nat, id: nat)
    requires i < |RoutesOf(db)| && RoutesOf(db)[i].transport == Paced(id)
    ensures id in PacedAccounts(db)
  {
    hide RoutesOf;
    RoutesComeFromSenders(db, i);
  }

  /** The paced transports that senders are sent through are exactly the accounts handed
      to master.cf. */
  lemma ReferencedTransportsAreDeclared(db: Db)
    requires SchemaValid(db)
    ensures ReadRoutes(RenderedMaps(db)).Some?
    ensures forall id :: (exists r :: r in ReadRoutes(RenderedMaps(db)).value && r.transport == Paced(id)) <==> id in PacedAccounts(db)
  {
    hide ReadRoutes, RenderedMaps, RoutesOf, PacedAccounts, SchemaValid;
    MapsAreLossless(db);
    forall id, r | r in RoutesOf(db) && r.transport == Paced(id) ensures id in PacedAccounts(db) {
      var i :| 0 <= i < |RoutesOf(db)| && RoutesOf(db)[i] == r;
      ReferencedArePaced(db, i, id);
    }
    forall id | id in PacedAccounts(db) ensures exists r :: r in RoutesOf(db) && r.transport == Paced(id) {
      PacedAreReferenced(db, id);
    }
  }

  /** Whether the map turns certificate verification off for the nexthop of a sender. */
  ghost predicate Unverified(db: Db, address: string)
    requires db.Routes(address)
  {
    exists e :: e in ParseMap(RenderedMaps(db).policy) && e.key == Nexthop(db.AccountOf(address)) && e.value == "encrypt"
  }

  lemma PolicyIsLossless(db: Db)
    requires SchemaValid(db)
    ensures ParseMap(RenderedMaps(db).policy) == PolicyEntries(db)
    ensures forall e: Entry :: e in ParseMap(RenderedMaps(db).policy) <==> e.value == "encrypt" && e.key in UnverifiedNexthops(db)
  {
    hide Sorted, Decimal, MapText, ParseMap;
    var nexthops := Sorted(UnverifiedNexthops(db));
    forall i | 0 <= i < |nexthops| ensures '\t' !in nexthops[i] && '\n' !in nexthops[i] {
      assert nexthops[i] in UnverifiedNexthops(db);
    }
    MapTextIsLossless(PolicyEntries(db));
    forall e: Entry | e.value == "encrypt" && e.key in UnverifiedNexthops(db) ensures e in PolicyEntries(db) {
      var i :| 0 <= i < |nexthops| && nexthops[i] == e.key;
      assert PolicyEntries(db)[i] == e;
    }
  }

  /** The policy map is keyed by nexthop, so verification is off for a sender exactly when
      some routed account with the same host and port opted out. */
  lemma VerificationIsPerNexthop(db: Db, address: string)
    requires SchemaValid(db) && db.Routes(address)
    ensures Unverified(db, address) <==>
            exists a :: a in db.senders && db.Routes(a) && db.AccountOf(a).skipVerify
                        && db.AccountOf(a).host == db.AccountOf(address).host && db.AccountOf(a).port == db.AccountOf(address).port
  {
    hide Sorted, Nexthop, ParseMap, RenderedMaps;
    PolicyIsLossless(db);
    var nexthops := Sorted(UnverifiedNexthops(db));
    if Unverified(db, address) {
      var e :| e in PolicyEntries(db) && e.key == Nexthop(db.AccountOf(address));
      assert e.key in UnverifiedNexthops(db);
      var a :| a in db.senders && db.Routes(a) && db.AccountOf(a).skipVerify && Nexthop(db.AccountOf(a)) == e.key;
      NexthopIsLossless(db.AccountOf(a));
      NexthopIsLossless(db.AccountOf(address));
    }
    if a :| a in db.senders && db.Routes(a) && db.AccountOf(a).skipVerify
            && db.AccountOf(a).host == db.AccountOf(address).host && db.AccountOf(a).port == db.AccountOf(address).port {
      SameNexthop(db.AccountOf(a), db.AccountOf(address));
      assert Nexthop(db.AccountOf(address)) in UnverifiedNexthops(db);
      var i :| 0 <= i < |nexthops| && nexthops[i] == Nexthop(db.AccountOf(address));
      assert PolicyEntries(db)[i] in PolicyEntries(db);
    }
  }

  lemma SameNexthop(account: Account, account': Account)
    requires account.host == account'.host && account.port == account'.port
    ensures Nexthop(account) == Nexthop(account')
  {
  }

  /** The generator's comment says that only accounts that opted out lose verification.
      That is so exactly when no routed account that did not opt out shares host and port
      with a routed one that did. */
  lemma OnlyOptedOutIffNoSharedNexthop(db: Db)
    requires SchemaValid(db)
    ensures (forall a :: a in db.senders && db.Routes(a) && Unverified(db, a) ==> db.AccountOf(a).skipVerify)
       <==> !exists a, b :: && a in db.senders && db.Routes(a) && !db.AccountOf(a).skipVerify
                            && b in db.senders && db.Routes(b) && db.AccountOf(b).skipVerify
                            && db.AccountOf(a).host == db.AccountOf(b).host && db.AccountOf(a).port == db.AccountOf(b).port
  {
    hide Unverified;
    forall a | a in db.senders && db.Routes(a)
      ensures Unverified(db, a) <==>
              exists b :: b in db.senders && db.Routes(b) && db.AccountOf(b).skipVerify
                          && db.AccountOf(b).host == db.AccountOf(a).host && db.AccountOf(b).port == db.AccountOf(a).port
    {
      VerificationIsPerNexthop(db, a);
    }
  }

  const OPTED_OUT: Account := Account("a", "h", 587, Starttls, "u", "p", true, None, true)
  const VERIFYING: Account := Account("b", "h", 587, Starttls, "v", "q", true, None, false)
  const SHARED_NEXTHOP: Db := Db(map[1 := OPTED_OUT, 2 := VERIFYING], map["x" := Sender(true, 1), "y" := Sender(true, 2)], map[], {})

  /** An input: two accounts at one provider, one of which opted out; the other one's sender
      loses verification too. */
  lemma SharedNexthopLosesVerification()
    ensures SchemaValid(SHARED_NEXTHOP) && SHARED_NEXTHOP.Routes("y")
    ensures !SHARED_NEXTHOP.AccountOf("y").skipVerify && Unverified(SHARED_NEXTHOP, "y")
  {
    hide Unverified;
    var db := SHARED_NEXTHOP;
    assert db.Routes("x") && db.AccountOf("x").skipVerify && "x" in db.senders;
    VerificationIsPerNexthop(db, "y");
  }

  // --------------------------------------------------------- checksums

  const NUL: char := '\0'

  /** What `_checksum` hashes; SHA-256 itself is taken to be injective. */
  function ConfigPreimage(mainCf: string, masterCf: string): string {
    mainCf + "\0" + masterCf
  }

  function MapsParts(maps: Maps): seq<string> {
    ["sasl_passwd", maps.passwords, "sender_login", maps.login, "sender_relayhost", maps.relayhost,
     "sender_transport", maps.transport, "tls_policy", maps.policy]
  }

  /** What `_maps_checksum` hashes: names and contents, in order of name. */
  function MapsPreimage(maps: Maps): string {
    Join(MapsParts(maps), NUL)
  }

  lemma ConfigChecksumIdentifies(mainCf: string, masterCf: string, mainCf': string, masterCf': string)
    requires NUL !in mainCf && NUL !in mainCf'
    requires ConfigPreimage(mainCf, masterCf) == ConfigPreimage(mainCf', masterCf')
    ensures mainCf == mainCf' && masterCf == masterCf'
  {
    FirstIndex(mainCf, NUL, masterCf);
    FirstIndex(mainCf', NUL, masterCf');
    assert mainCf + "\0" + masterCf == mainCf + [NUL] + masterCf;
    assert mainCf' + "\0" + masterCf' == mainCf' + [NUL] + masterCf';
  }

  lemma {:induction false} SplitAppends(a: string, b: string, sep: char)
    ensures Split(a + [sep] + b, sep) == Split(a, sep) + Split(b, sep)
  {
    if a == "" {
      assert ([sep] + b)[1..] == b;
      assert "" + [sep] + b == [sep] + b;
    } else {
      assert (a + [sep] + b)[1..] == a[1..] + [sep] + b;
      SplitAppends(a[1..], b, sep);
    }
  }

  lemma {:induction false} JoinUndoesSplit(text: string, sep: char)
    ensures Join(Split(text, sep), sep) == text
  {
    if text != "" {
      JoinUndoesSplit(text[1..], sep);
      var rest := Split(text[1..], sep);
      if text[0] == sep {
        assert ([""] + rest)[1..] == rest;
        assert [sep] + text[1..] == text;
      } else {
        assert ([[text[0]] + rest[0]] + rest[1..])[1..] == rest[1..];
        assert [text[0]] + text[1..] == text;
      }
    }
  }

  function PartsAfterPasswords(maps: Maps): seq<string> {
    ["sender_login", maps.login, "sender_relayhost", maps.relayhost, "sender_transport", maps.transport, "tls_policy", maps.policy]
  }

  /** The login names of upstream accounts may contain NUL, so the password map may; all
      the other maps cannot. That is enough for the checksum to identify all five. */
  lemma MapsChecksumIdentifies(maps: Maps, maps': Maps)
    requires NUL !in maps.login && NUL !in maps.relayhost && NUL !in maps.transport && NUL !in maps.policy
    requires NUL !in maps'.login && NUL !in maps'.relayhost && NUL !in maps'.transport && NUL !in maps'.policy
    requires MapsPreimage(maps) == MapsPreimage(maps')
    ensures maps == maps'
  {
    PreimageSplits(maps);
    PreimageSplits(maps');
    var tail, tail' := PartsAfterPasswords(maps), PartsAfterPasswords(maps');
    var head, head' := ["sasl_passwd"] + Split(maps.passwords, NUL), ["sasl_passwd"] + Split(maps'.passwords, NUL);
    assert head + tail == head' + tail';
    assert |head| == |head'|;
    assert (head + tail)[..|head|] == head && (head' + tail')[..|head|] == head';
    assert (head + tail)[|head|..] == tail && (head' + tail')[|head|..] == tail';
    assert head[1..] == Split(maps.passwords, NUL) && head'[1..] == Split(maps'.passwords, NUL);
    assert tail[1] == tail'[1] && tail[3] == tail'[3] && tail[5] == tail'[5] && tail[7] == tail'[7];
    JoinUndoesSplit(maps.passwords, NUL);
    JoinUndoesSplit(maps'.passwords, NUL);
  }

  lemma PreimageSplits(maps: Maps)
    requires NUL !in maps.login && NUL !in maps.relayhost && NUL !in maps.transport && NUL !in maps.policy
    ensures Split(MapsPreimage(maps), NUL) == ["sasl_passwd"] + Split(maps.passwords, NUL) + PartsAfterPasswords(maps)
  {
    hide Split, PartsAfterPasswords;
    var rest := PartsAfterPasswords(maps);
    PreimageShape(maps);
    SplitAppends("sasl_passwd", maps.passwords + [NUL] + Join(rest, NUL), NUL);
    SplitAppends(maps.passwords, Join(rest, NUL), NUL);
    PartsWithoutNul(maps);
    SplitUndoesJoin(rest, NUL);
    SplitUndoesJoin(["sasl_passwd"], NUL);
  }

  lemma PreimageShape(maps: Maps)
    ensures PartsAfterPasswords(maps) != []
    ensures MapsPreimage(maps) == "sasl_passwd" + [NUL] + (maps.passwords + [NUL] + Join(PartsAfterPasswords(maps), NUL))
  {
    hide Split;
    var rest := PartsAfterPasswords(maps);
    var parts := MapsParts(maps);
    assert parts[1..][1..] == rest && parts[1..][0] == maps.passwords;
    assert Join(parts[1..], NUL) == maps.passwords + [NUL] + Join(rest, NUL);
  }

  lemma PartsWithoutNul(maps: Maps)
    requires NUL !in maps.login && NUL !in maps.relayhost && NUL !in maps.transport && NUL !in maps.policy
    ensures Without(PartsAfterPasswords(maps), NUL)
  {
    assert NUL !in "sender_login" && NUL !in "sender_relayhost" && NUL !in "sender_transport" && NUL !in "tls_policy";
    forall p | p in PartsAfterPasswords(maps) ensures NUL !in p {
      assert p in ["sender_login", maps.login, "sender_relayhost", maps.relayhost] || p in ["sender_transport", maps.transport, "tls_policy", maps.policy];
    }
  }

  lemma {:induction false} MapTextHasNoNul(entries: seq<Entry>)
    requires forall e :: e in entries ==> NUL !in e.key && NUL !in e.value
    ensures NUL !in MapText(entries)
  {
    var lines := EntryLines(entries);
    forall line | line in lines ensures NUL !in line {
      var i :| 0 <= i < |lines| && lines[i] == line;
      assert entries[i] in entries;
    }
    UnlinesWithout(lines, NUL);
  }

  /** Two databases the schemas admit have the same maps checksum only if their maps, and
      with them the routing and the authorisations, are the same. */
  lemma EqualMapsChecksumsMeanEqualRouting(db: Db, db': Db)
    requires SchemaValid(db) && SchemaValid(db')
    requires MapsPreimage(RenderedMaps(db)) == MapsPreimage(RenderedMaps(db'))
    ensures RenderedMaps(db) == RenderedMaps(db') && RoutesOf(db) == RoutesOf(db') && OwnersOf(db) == OwnersOf(db')
  {
    hide MapsPreimage, RoutesOf, OwnersOf, ReadRoutes, ReadOwners;
    RenderedWithoutNul(db);
    RenderedWithoutNul(db');
    MapsChecksumIdentifies(RenderedMaps(db), RenderedMaps(db'));
    MapsAreLossless(db);
    MapsAreLossless(db');
  }

  lemma RenderedWithoutNul(db: Db)
    requires SchemaValid(db)
    ensures var maps := RenderedMaps(db);
            NUL !in maps.login && NUL !in maps.relayhost && NUL !in maps.transport && NUL !in maps.policy
  {
    LoginWithoutNul(db);
    SendersWithoutNul(db, Relayhost);
    SendersWithoutNul(db, Transport);
    PolicyWithoutNul(db);
  }

  lemma LoginWithoutNul(db: Db)
    requires SchemaValid(db)
    ensures NUL !in MapText(LoginEntries(db))
  {
    hide Sorted, Join, MapText;
    var authorised := Sorted(db.Authorised());
    forall e | e in LoginEntries(db) ensures NUL !in e.key && NUL !in e.value {
      var i :| 0 <= i < |authorised| && LoginEntries(db)[i] == e;
      assert authorised[i] in db.Authorised();
      JoinIsPrintable(Sorted(db.Owners(authorised[i])));
    }
    MapTextHasNoNul(LoginEntries(db));
  }

  lemma ValueHasNoNul(column: Column, id: nat, account: Account)
    requires Printable(account.host) && !column.Password?
    ensures NUL !in ValueOf(column, id, account)
  {
    hide Decimal;
    match column
    case Relayhost => assert NUL !in "[" + account.host + "]:" + Decimal(account.port);
    case Transport => assert NUL !in RATE_LIMITED_PREFIX + Decimal(id);
  }

  lemma SendersWithoutNul(db: Db, column: Column)
    requires SchemaValid(db) && !column.Password?
    ensures NUL !in MapText(SenderEntries(db, column))
  {
    hide Sorted, MapText, ValueOf, LoginName;
    var routed, entries := Sorted(db.Routed()), SenderEntries(db, column);
    forall e | e in entries ensures NUL !in e.key && NUL !in e.value {
      var i :| 0 <= i < |entries| && entries[i] == e;
      assert routed[i] in db.Routed();
      ValueHasNoNul(column, db.senders[routed[i]].account, db.AccountOf(routed[i]));
    }
    MapTextHasNoNul(entries);
  }

  lemma PolicyWithoutNul(db: Db)
    requires SchemaValid(db)
    ensures NUL !in MapText(PolicyEntries(db))
  {
    hide Sorted, MapText, Decimal, LoginName;
    var nexthops := Sorted(UnverifiedNexthops(db));
    forall e | e in PolicyEntries(db) ensures NUL !in e.key && NUL !in e.value {
      var i :| 0 <= i < |nexthops| && PolicyEntries(db)[i] == e;
      assert nexthops[i] in UnverifiedNexthops(db);
    }
    MapTextHasNoNul(PolicyEntries(db));
  }

  // ------------------------------------------------------------ pacing

  const SECOND: int := 1_000_000

  ghost predicate Spaced(times: seq<int>, gap: int) {
    forall i :: 0 < i < |times| ==> times[i] - times[i - 1] >= gap
  }

  lemma {:induction false} SpacedFar(times: seq<int>, gap: int, i: nat, j: nat)
    requires Spaced(times, gap) && i <= j < |times|
    ensures times[j] - times[i] >= (j - i) * gap
    decreases j
  {
    if i < j {
      SpacedFar(times, gap, i, j - 1);
      assert (j - 1 - i) * gap + gap == (j - i) * gap;
    }
  }

  /** The delay is the least whole number of seconds that keeps any run of deliveries
      spaced by it within the hourly rate, in every half-open hour. */
  lemma PacingKeepsTheRate(perHour: nat, times: seq<int>, i: nat, j: nat)
    requires perHour >= 1 && Spaced(times, RateDelaySeconds(perHour) * SECOND)
    requires i <= j < |times| && times[j] < times[i] + 3600 * SECOND
    ensures j - i + 1 <= perHour
    ensures (RateDelaySeconds(perHour) - 1) * perHour < 3600 <= RateDelaySeconds(perHour) * perHour
  {
    var delay := RateDelaySeconds(perHour);
    DelayIsCeiling(perHour);
    SpacedFar(times, delay * SECOND, i, j);
    if perHour <= j - i {
      ProductIsMonotone(delay * SECOND, perHour, j - i);
    }
  }

  lemma DelayIsCeiling(perHour: nat)
    requires perHour >= 1
    ensures (RateDelaySeconds(perHour) - 1) * perHour < 3600 <= RateDelaySeconds(perHour) * perHour
  {
    var n := 3600 + perHour - 1;
    assert n == (n / perHour) * perHour + n % perHour;
    assert (RateDelaySeconds(perHour) - 1) * perHour == (n / perHour) * perHour - perHour;
  }

  lemma ProductIsMonotone(gap: int, m: nat, n: nat)
    requires 0 <= gap && m <= n
    ensures m * gap <= n * gap
  {
  }
}
