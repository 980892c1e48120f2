/**
 The five lookup maps rendered from the database: what they say, that nothing is lost
 in their text, and that their checksum identifies them.
 */
module ConfigMaps {
  import opened Prelude
  import opened Text

  datatype TlsMode = Starttls | Implicit

  /** An upstream account, with its password already decrypted. */
  datatype Account = Account(
    name: string,
    host: string,
    port: nat,
    tlsMode: TlsMode,
    username: string,
    password: string,
    enabled: bool,
    perHour: Option<nat>,
    skipVerify: bool)

  datatype Sender = Sender(enabled: bool, account: nat)

  /** The tables the generator reads, keyed by their unique columns: senders by address,
      local users (enabled or not) by username, grants by username and address. */
  datatype Db = Db(
    accounts: map<nat, Account>,
    senders: map<string, Sender>,
    users: map<string, bool>,
    grants: set<(string, string)>)
  {
    /** The senders that have an enabled upstream account to go through. */
    predicate Routes(address: string) {
      && address in senders && senders[address].enabled
      && senders[address].account in accounts && accounts[senders[address].account].enabled
    }

    function Routed(): set<string> {
      set address | address in senders && Routes(address)
    }

    function AccountOf(address: string): Account
      requires Routes(address)
    {
      accounts[senders[address].account]
    }

    /** The enabled local users a sender has been granted to. */
    function Owners(address: string): set<string> {
      set user | user in users && users[user] && (user, address) in grants
    }

    /** The addresses at least one enabled user may send as. */
    function Authorised(): set<string> {
      set address | address in senders && Routes(address) && Owners(address) != {}
    }
  }

  // ------------------------------------------------------- rendered values

  datatype Entry = Entry(key: string, value: string) {
    /** `_tab_join` */
    function Line(): string {
      key + "\t" + value
    }
  }

  function EntryLines(entries: seq<Entry>): seq<string> {
    seq(|entries|, i requires 0 <= i < |entries| => entries[i].Line())
  }

  function MapText(entries: seq<Entry>): string {
    Unlines(EntryLines(entries))
  }

  function Nexthop(account: Account): string {
    "[" + account.host + "]:" + Decimal(account.port)
  }

  function Credentials(account: Account): string {
    account.username + ":" + account.password
  }

  const RATE_LIMITED_PREFIX: string := "rl_acct"

  function TransportNameFor(id: nat, account: Account): string {
    if account.perHour.Some? then RATE_LIMITED_PREFIX + Decimal(id)
    else if account.tlsMode.Implicit? then "smtp_implicit_tls"
    else "smtp"
  }

  /** `ceil(3600 / N)` */
  function RateDelaySeconds(perHour: nat): nat
    requires perHour >= 1
  {
    (3600 + perHour - 1) / perHour
  }

  // ------------------------------------------- what each map should contain

  function LoginEntry(db: Db, address: string): Entry {
    Entry(address, Join(Sorted(db.Owners(address)), ','))
  }

  function LoginEntries(db: Db): seq<Entry> {
    var addresses := Sorted(db.Authorised());
    seq(|addresses|, i requires 0 <= i < |addresses| => LoginEntry(db, addresses[i]))
  }

  /** The three maps that have one entry for each routed sender. */
  datatype Column = Relayhost | Password | Transport

  function ValueOf(column: Column, id: nat, account: Account): string {
    match column
    case Relayhost => Nexthop(account)
    case Password => Credentials(account)
    case Transport => TransportNameFor(id, account) + ":"
  }

  function SenderEntry(db: Db, column: Column, address: string): Entry
    requires db.Routes(address)
  {
    Entry(address, ValueOf(column, db.senders[address].account, db.AccountOf(address)))
  }

  function SenderEntries(db: Db, column: Column): (entries: seq<Entry>)
    ensures |entries| == |Sorted(db.Routed())|
    ensures forall i :: 0 <= i < |entries| ==> Sorted(db.Routed())[i] in db.Routed() && entries[i] == SenderEntry(db, column, Sorted(db.Routed())[i])
  {
    var addresses := Sorted(db.Routed());
    assert forall i :: 0 <= i < |addresses| ==> addresses[i] in db.Routed();
    seq(|addresses|, i requires 0 <= i < |addresses| => SenderEntry(db, column, addresses[i]))
  }

  /** The nexthops for which certificate verification is off. */
  function UnverifiedNexthops(db: Db): set<string> {
    set address | address in db.senders && db.Routes(address) && db.AccountOf(address).skipVerify :: Nexthop(db.AccountOf(address))
  }

  function PolicyEntries(db: Db): seq<Entry> {
    var nexthops := Sorted(UnverifiedNexthops(db));
    seq(|nexthops|, i requires 0 <= i < |nexthops| => Entry(nexthops[i], "encrypt"))
  }

  datatype Maps = Maps(login: string, relayhost: string, passwords: string, transport: string, policy: string)

  function RenderedMaps(db: Db): Maps {
    Maps(MapText(LoginEntries(db)), MapText(SenderEntries(db, Relayhost)), MapText(SenderEntries(db, Password)),
         MapText(SenderEntries(db, Transport)), MapText(PolicyEntries(db)))
  }

  // ---------------------------------------------------------- the generator

  /** The rows of the permissions join, ordered by address and then username. */
  function LoginRows(db: Db, addresses: seq<string>): seq<(string, string)> {
    if addresses == [] then []
    else LoginRows(db, Init(addresses)) + Pairs(Last(addresses), Sorted(db.Owners(Last(addresses))))
  }

  function Pairs(address: string, usernames: seq<string>): seq<(string, string)> {
    seq(|usernames|, i requires 0 <= i < |usernames| => (address, usernames[i]))
  }

  /** The rows grouped by their first column, in row order. */
  function Grouped(rows: seq<(string, string)>): map<string, seq<string>> {
    if rows == [] then map[]
    else
      var m, (address, username) := Grouped(Init(rows)), Last(rows);
      m[address := (if address in m then m[address] else []) + [username]]
  }

  lemma {:induction false} GroupsOneBlock(rows: seq<(string, string)>, address: string, usernames: seq<string>)
    requires address !in Grouped(rows)
    ensures Grouped(rows + Pairs(address, usernames))
         == if usernames == [] then Grouped(rows) else Grouped(rows)[address := usernames]
  {
    hide Grouped, Pairs;
    PairsOfMore(address, usernames);
    if usernames == [] {
      assert rows + [] == rows;
    } else {
      var earlier := Pairs(address, Init(usernames));
      GroupsOneBlock(rows, address, Init(usernames));
      assert rows + (earlier + [(address, Last(usernames))]) == (rows + earlier) + [(address, Last(usernames))];
      GroupedOfMore(rows + earlier, address, Last(usernames));
      assert Init(usernames) + [Last(usernames)] == usernames;
      assert Init(usernames) == [] ==> usernames == [Last(usernames)];
    }
  }

  lemma PairsOfMore(address: string, usernames: seq<string>)
    ensures Pairs(address, usernames) == if usernames == [] then [] else Pairs(address, Init(usernames)) + [(address, Last(usernames))]
  {
  }

  lemma GroupedOfMore(rows: seq<(string, string)>, address: string, username: string)
    ensures var m := Grouped(rows);
            Grouped(rows + [(address, username)]) == m[address := (if address in m then m[address] else []) + [username]]
  {
    assert Init(rows + [(address, username)]) == rows && Last(rows + [(address, username)]) == (address, username);
  }

  ghost function OwnersByAddress(db: Db, addresses: seq<string>): map<string, seq<string>> {
    map a | a in addresses && db.Owners(a) != {} :: Sorted(db.Owners(a))
  }

  lemma OwnersByAddressGrows(db: Db, earlier: seq<string>, last: string)
    requires last !in earlier
    ensures OwnersByAddress(db, earlier + [last])
         == if db.Owners(last) == {} then OwnersByAddress(db, earlier)
            else OwnersByAddress(db, earlier)[last := Sorted(db.Owners(last))]
  {
    hide Sorted, Db.Owners;
  }

  lemma {:induction false} GroupsEveryOwner(db: Db, addresses: seq<string>)
    requires forall i, j :: 0 <= i < j < |addresses| ==> addresses[i] != addresses[j]
    ensures Grouped(LoginRows(db, addresses)) == OwnersByAddress(db, addresses)
  {
    if addresses == [] {
      assert OwnersByAddress(db, addresses) == map[];
    } else {
      hide Grouped, Sorted, Pairs, Db.Owners, OwnersByAddress;
      var earlier, last := Init(addresses), Last(addresses);
      GroupsEveryOwner(db, earlier);
      assert last !in earlier;
      assert addresses == earlier + [last];
      OwnersByAddressGrows(db, earlier, last);
      NotAKey(db, earlier, last);
      GroupsOneBlock(LoginRows(db, earlier), last, Sorted(db.Owners(last)));
      assert db.Owners(last) == {} <==> |Sorted(db.Owners(last))| == 0;
    }
  }

  lemma NotAKey(db: Db, earlier: seq<string>, last: string)
    requires last !in earlier
    ensures last !in OwnersByAddress(db, earlier)
  {
  }

  lemma AscendingIsDistinct(s: seq<string>)
    requires Ascending(s)
    ensures forall i, j :: 0 <= i < j < |s| ==> s[i] != s[j]
  {
    forall i, j | 0 <= i < j < |s| ensures s[i] != s[j] {
      BeforeIsTotal(s[i], s[j]);
    }
  }

  /** Who may send as what: exactly the authorised addresses, each with its enabled owners in order. */
  method SenderLoginMap(db: Db) returns (result: map<string, seq<string>>)
    ensures result.Keys == db.Authorised()
    ensures forall a :: a in result ==> result[a] == Sorted(db.Owners(a))
  {
    hide Grouped, LoginRows, OwnersByAddress, Sorted;
    var addresses := Sorted(db.Routed());
    var rows := LoginRows(db, addresses);
    result := map[];
    NothingGrouped(rows);
    for i := 0 to |rows|
      invariant result == Grouped(rows[..i])
    {
      var (address, username) := rows[i];
      NextGrouped(rows, i);
      if address !in result {
        result := result[address := []];
      }
      result := result[address := result[address] + [username]];
    }
    assert rows[..|rows|] == rows;
    AscendingIsDistinct(addresses);
    GroupsEveryOwner(db, addresses);
    OwnersAreAuthorised(db);
  }

  lemma NothingGrouped(rows: seq<(string, string)>)
    ensures Grouped(rows[..0]) == map[]
  {
  }

  lemma NextGrouped(rows: seq<(string, string)>, i: nat)
    requires i < |rows|
    ensures var (m, (address, username)) := (Grouped(rows[..i]), rows[i]);
            Grouped(rows[..i + 1]) == m[address := (if address in m then m[address] else []) + [username]]
  {
    assert rows[..i + 1] == rows[..i] + [rows[i]];
    GroupedOfMore(rows[..i], rows[i].0, rows[i].1);
  }

  lemma OwnersAreAuthorised(db: Db)
    ensures var owners := OwnersByAddress(db, Sorted(db.Routed()));
            owners.Keys == db.Authorised() && forall a :: a in owners ==> owners[a] == Sorted(db.Owners(a))
  {
    hide Sorted, Db.Owners;
    assert forall a :: a in Sorted(db.Routed()) <==> a in db.Routed();
  }

  function UnverifiedAmong(db: Db, addresses: seq<string>): set<string> {
    set address | address in addresses && db.Routes(address) && db.AccountOf(address).skipVerify :: Nexthop(db.AccountOf(address))
  }

  lemma UnverifiedGrow(db: Db, addresses: seq<string>, address: string)
    requires db.Routes(address)
    ensures UnverifiedAmong(db, addresses + [address]) ==
              UnverifiedAmong(db, addresses) + if db.AccountOf(address).skipVerify then {Nexthop(db.AccountOf(address))} else {}
  {
    hide Nexthop;
  }

  lemma UnverifiedAreAll(db: Db)
    ensures UnverifiedAmong(db, Sorted(db.Routed())) == UnverifiedNexthops(db)
  {
    hide Nexthop, Sorted;
    assert forall a :: a in db.senders && db.Routes(a) ==> a in db.Routed();
  }

  /** The first `n` lines of the map of one column. */
  function FirstLines(db: Db, column: Column, n: nat): seq<string>
    requires n <= |Sorted(db.Routed())|
  {
    EntryLines(SenderEntries(db, column))[..n]
  }

  lemma SenderLineAt(db: Db, n: nat)
    requires n < |Sorted(db.Routed())|
    ensures var address := Sorted(db.Routed())[n];
            && address in db.senders && db.Routes(address)
            && Sorted(db.Routed())[..n + 1] == Sorted(db.Routed())[..n] + [address]
            && forall column :: FirstLines(db, column, n + 1) == FirstLines(db, column, n) + [SenderEntry(db, column, address).Line()]
  {
    hide Sorted, SenderEntry, SenderEntries;
    assert |SenderEntries(db, Relayhost)| == |Sorted(db.Routed())|;
    assert Sorted(db.Routed())[n] in db.Routed();
  }

  lemma AllLines(db: Db, column: Column)
    ensures FirstLines(db, column, 0) == [] && FirstLines(db, column, |Sorted(db.Routed())|) == EntryLines(SenderEntries(db, column))
  {
    hide Sorted, SenderEntry, SenderEntries;
  }

  /** One line per routed sender in each of three maps, and the exceptions to certificate
      verification collected by nexthop. */
  method SenderLines(db: Db)
    returns (relayhost: seq<string>, passwords: seq<string>, transport: seq<string>, policy: map<string, string>)
    ensures relayhost == EntryLines(SenderEntries(db, Relayhost))
    ensures passwords == EntryLines(SenderEntries(db, Password))
    ensures transport == EntryLines(SenderEntries(db, Transport))
    ensures policy == map nexthop | nexthop in UnverifiedNexthops(db) :: "encrypt"
  {
    hide Sorted, Nexthop, Credentials, TransportNameFor, FirstLines, EntryLines, SenderEntries, UnverifiedAmong, UnverifiedNexthops;
    var routed := Sorted(db.Routed());
    relayhost, passwords, transport, policy := [], [], [], map[];
    AllLines(db, Relayhost);
    AllLines(db, Password);
    AllLines(db, Transport);
    NoneUnverified(db);
    for i := 0 to |routed|
      invariant relayhost == FirstLines(db, Relayhost, i) && passwords == FirstLines(db, Password, i)
      invariant transport == FirstLines(db, Transport, i)
      invariant policy.Keys == UnverifiedAmong(db, routed[..i])
      invariant forall nexthop :: nexthop in policy ==> policy[nexthop] == "encrypt"
    {
      var address := routed[i];
      SenderLineAt(db, i);
      UnverifiedGrow(db, routed[..i], address);
      var id := db.senders[address].account;
      var account := db.accounts[id];
      relayhost := relayhost + [Entry(address, Nexthop(account)).Line()];
      passwords := passwords + [Entry(address, Credentials(account)).Line()];
      transport := transport + [Entry(address, TransportNameFor(id, account) + ":").Line()];
      if account.skipVerify {
        policy := policy[Nexthop(account) := "encrypt"];
      }
    }
    assert routed[..|routed|] == routed;
    UnverifiedAreAll(db);
  }

  lemma NoneUnverified(db: Db)
    ensures UnverifiedAmong(db, Sorted(db.Routed())[..0]) == {}
  {
    hide Sorted;
  }

  /** One warning for each enabled sender without a route. */
  method Warnings(db: Db) returns (warned: seq<string>)
    ensures forall a :: a in warned <==> a in db.senders && db.senders[a].enabled && !db.Routes(a)
    ensures forall i, j :: 0 <= i < j < |warned| ==> warned[i] != warned[j]
  {
    hide Sorted;
    var working := db.Routed();
    var all := Sorted(db.senders.Keys);
    AscendingIsDistinct(all);
    warned := [];
    for i := 0 to |all|
      invariant forall a :: a in warned <==> a in all[..i] && db.senders[a].enabled && a !in working
      invariant forall j, k :: 0 <= j < k < |warned| ==> warned[j] != warned[k]
    {
      assert all[i] !in all[..i];
      if !db.senders[all[i]].enabled || all[i] in working {
        continue;
      }
      warned := warned + [all[i]];
    }
    assert all[..|all|] == all;
  }

  /** Renders every map and warns about each enabled sender that is in none of them. */
  method BuildMaps(db: Db) returns (maps: Maps, warned: seq<string>)
    ensures maps == RenderedMaps(db)
    ensures forall a :: a in warned <==> a in db.senders && db.senders[a].enabled && a !in db.Routed()
    ensures forall i, j :: 0 <= i < j < |warned| ==> warned[i] != warned[j]
  {
    hide Sorted, Join, Unlines;
    var loginMap := SenderLoginMap(db);
    var addresses := Sorted(loginMap.Keys);
    var login := seq(|addresses|, i requires 0 <= i < |addresses| && addresses[i] in loginMap =>
      Entry(addresses[i], Join(loginMap[addresses[i]], ',')).Line());
    assert login == EntryLines(LoginEntries(db));
    var relayhost, passwords, transport, policy := SenderLines(db);
    warned := Warnings(db);
    var nexthops := Sorted(policy.Keys);
    var policyLines := seq(|nexthops|, i requires 0 <= i < |nexthops| && nexthops[i] in policy =>
      Entry(nexthops[i], policy[nexthops[i]]).Line());
    assert policy.Keys == UnverifiedNexthops(db);
    assert policyLines == EntryLines(PolicyEntries(db));
    JoinedLines(login);
    JoinedLines(relayhost);
    JoinedLines(passwords);
    JoinedLines(transport);
    maps := Maps(
      Join(login, '\n') + (if login != [] then "\n" else ""),
      Join(relayhost, '\n') + (if relayhost != [] then "\n" else ""),
      Join(passwords, '\n') + (if passwords != [] then "\n" else ""),
      Join(transport, '\n') + (if transport != [] then "\n" else ""),
      Unlines(policyLines));
  }

  // ----------------------------------------------- paced transports

  /** A synthetic master.cf transport for one rate-limited account. */
  datatype PacedTransport = PacedTransport(account: nat, implicitTls: bool, delaySeconds: nat)

  predicate IsLeast(m: nat, s: set<nat>) {
    m in s && forall x :: x in s ==> m <= x
  }

  lemma {:induction false} LeastExists(s: set<nat>)
    requires s != {}
    ensures exists m :: IsLeast(m, s)
    decreases |s|
  {
    var x :| x in s;
    assert s == (s - {x}) + {x};
    if s - {x} == {} {
      assert IsLeast(x, s);
    } else {
      LeastExists(s - {x});
      var m :| IsLeast(m, s - {x});
      assert IsLeast(if m < x then m else x, s);
    }
  }

  /** `sorted()` on ids. */
  function SortedIds(s: set<nat>): (r: seq<nat>)
    ensures forall i, j :: 0 <= i < j < |r| ==> r[i] < r[j]
    ensures forall x :: x in r <==> x in s
    decreases |s|
  {
    if s == {} then []
    else
      LeastExists(s);
      var m :| IsLeast(m, s);
      var rest := SortedIds(s - {m});
      assert forall i :: 0 <= i < |rest| ==> rest[i] in s - {m};
      [m] + rest
  }

  /** The accounts that pace at least one routed sender. */
  function PacedAccounts(db: Db): set<nat> {
    set address | address in db.senders && db.Routes(address) && db.AccountOf(address).perHour.Some? :: db.senders[address].account
  }

  /** The paced accounts by id; several senders may share one. */
  method PacedAccountMap(db: Db) returns (accounts: map<nat, Account>)
    ensures accounts == map id | id in PacedAccounts(db) && id in db.accounts :: db.accounts[id]
    ensures accounts.Keys == PacedAccounts(db)
  {
    hide Sorted;
    var routed := Sorted(db.Routed());
    accounts := map[];
    for i := 0 to |routed|
      invariant accounts.Keys == set a | a in routed[..i] && db.Routes(a) && db.AccountOf(a).perHour.Some? :: db.senders[a].account
      invariant forall id :: id in accounts ==> id in db.accounts && accounts[id] == db.accounts[id]
    {
      assert routed[i] in db.Routed();
      var id := db.senders[routed[i]].account;
      assert routed[..i + 1] == routed[..i] + [routed[i]];
      if db.accounts[id].perHour.Some? {
        accounts := accounts[id := db.accounts[id]];
      }
    }
    assert routed[..|routed|] == routed;
    assert accounts.Keys == PacedAccounts(db);
  }

  lemma PacedHaveRates(db: Db)
    ensures forall id :: id in PacedAccounts(db) ==> id in db.accounts && db.accounts[id].perHour.Some?
  {
  }

  /** One transport for each account that needs pacing, without repeats and in id order. */
  method RateLimitedAccountTransports(db: Db) returns (transports: seq<PacedTransport>)
    requires forall id :: id in db.accounts && db.accounts[id].perHour.Some? ==> db.accounts[id].perHour.value >= 1
    ensures forall i, j :: 0 <= i < j < |transports| ==> transports[i].account < transports[j].account
    ensures forall id :: (exists t :: t in transports && t.account == id) <==> id in PacedAccounts(db)
    ensures forall t :: t in transports ==>
              && t.account in db.accounts && db.accounts[t.account].perHour.Some?
              && t.implicitTls == db.accounts[t.account].tlsMode.Implicit?
              && t.delaySeconds == RateDelaySeconds(db.accounts[t.account].perHour.value)
  {
    hide SortedIds, RateDelaySeconds, PacedAccounts;
    PacedHaveRates(db);
    var accounts := PacedAccountMap(db);
    var ids := SortedIds(accounts.Keys);
    transports := [];
    for i := 0 to |ids|
      invariant |transports| == i
      invariant forall j :: 0 <= j < i ==> ids[j] in accounts && accounts[ids[j]].perHour.Some?
      invariant forall j :: 0 <= j < i ==>
                  var account := accounts[ids[j]];
                  transports[j] == PacedTransport(ids[j], account.tlsMode.Implicit?, RateDelaySeconds(account.perHour.value))
    {
      assert ids[i] in accounts;
      var account := accounts[ids[i]];
      transports := transports + [PacedTransport(ids[i], account.tlsMode.Implicit?, RateDelaySeconds(account.perHour.value))];
    }
    forall id | id in PacedAccounts(db) ensures exists t :: t in transports && t.account == id {
      assert id in ids;
      var j :| 0 <= j < |ids| && ids[j] == id;
      assert transports[j] in transports;
    }
  }
}
