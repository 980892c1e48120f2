/**
 Key rotation: every stored secret is re-encrypted from an old key to a new one in a
 single transaction over all tables.
 */
module KeyRotation {
  import opened Prelude

  // ------------------------------------------------------------- encryption

  /** An encrypted blob: sealed under a key, or bytes that no key opens. */
  datatype Blob = Sealed(key: nat, nonce: nat, plaintext: string) | Corrupted(bytes: seq<nat>)

  function DecryptWithKey(blob: Blob, key: nat): Option<string> {
    if blob.Sealed? && blob.key == key then Some(blob.plaintext) else None
  }

  function EncryptWithKey(plaintext: string, key: nat, nonce: nat): (blob: Blob)
    ensures forall k :: DecryptWithKey(blob, k) == if k == key then Some(plaintext) else None
  {
    Sealed(key, nonce, plaintext)
  }

  // ------------------------------------------------------------- the database

  datatype Cell = Null | Secret(blob: Blob) | Plain(text: string) | Time(at: int)

  /** `touched` columns are set to the current time by every update of their row. */
  datatype Column = Column(name: string, touched: bool)

  datatype Row = Row(pk: nat, cells: seq<Cell>)

  datatype Table = Table(columns: seq<Column>, rows: seq<Row>)

  const ENCRYPTED: string := "encrypted"

  predicate OccursAt(s: string, word: string, i: nat) {
    i + |word| <= |s| && s[i..i + |word|] == word
  }

  predicate Contains(s: string, word: string) {
    exists i: nat :: i <= |s| && OccursAt(s, word, i)
  }

  /** The position of a cell. */
  datatype Place = Place(table: nat, row: nat, column: nat)

  predicate InTables(tables: seq<Table>, p: Place) {
    p.table < |tables| && p.row < |tables[p.table].rows| && p.column < |tables[p.table].columns|
  }

  /** Rows as wide as their table, primary keys unique, secrets in the columns named so,
      which are not themselves set by every update. */
  ghost predicate SchemaValid(tables: seq<Table>) {
    && (forall p :: InTables(tables, p) ==> |tables[p.table].rows[p.row].cells| == |tables[p.table].columns|)
    && (forall t, r, r' :: 0 <= t < |tables| && 0 <= r < r' < |tables[t].rows| ==> tables[t].rows[r].pk != tables[t].rows[r'].pk)
    && (forall p :: InTables(tables, p) && IsEncrypted(tables, p) ==>
          !tables[p.table].columns[p.column].touched && (CellAt(tables, p).Null? || CellAt(tables, p).Secret?))
  }

  predicate IsEncrypted(tables: seq<Table>, p: Place)
    requires InTables(tables, p)
  {
    Contains(tables[p.table].columns[p.column].name, ENCRYPTED)
  }

  predicate IsTouched(tables: seq<Table>, p: Place)
    requires InTables(tables, p)
  {
    tables[p.table].columns[p.column].touched
  }

  /** The cell; null where a row would be too short. */
  function CellAt(tables: seq<Table>, p: Place): Cell
    requires InTables(tables, p)
  {
    var cells := tables[p.table].rows[p.row].cells;
    if p.column < |cells| then cells[p.column] else Null
  }

  ghost predicate HoldsSecret(tables: seq<Table>, p: Place) {
    InTables(tables, p) && IsEncrypted(tables, p) && !CellAt(tables, p).Null?
  }

  function Opened(cell: Cell, key: nat): Option<string> {
    if cell.Secret? then DecryptWithKey(cell.blob, key) else None
  }

  /** Every stored secret can be decrypted with a key. */
  ghost predicate AllOpen(tables: seq<Table>, key: nat) {
    forall p :: HoldsSecret(tables, p) ==> Opened(CellAt(tables, p), key).Some?
  }

  ghost predicate SameShape(tables: seq<Table>, tables': seq<Table>) {
    && |tables'| == |tables|
    && (forall t :: 0 <= t < |tables| ==> tables'[t].columns == tables[t].columns && |tables'[t].rows| == |tables[t].rows|)
    && (forall t, r :: 0 <= t < |tables| && 0 <= r < |tables[t].rows| ==>
          tables'[t].rows[r].pk == tables[t].rows[r].pk && |tables'[t].rows[r].cells| == |tables[t].rows[r].cells|)
  }

  ghost predicate RowChanged(p: Place, done: set<Place>) {
    exists q :: q in done && q.table == p.table && q.row == p.row
  }

  /** The secrets in `done`, and they alone, went from one key to the other; of the other
      cells only the update times in the same rows changed. */
  ghost predicate Rotated(tables: seq<Table>, tables': seq<Table>, done: set<Place>, oldKey: nat, newKey: nat) {
    && SameShape(tables, tables')
    && forall p :: InTables(tables, p) ==> CellRotated(tables, tables', p, done, oldKey, newKey)
  }

  ghost predicate CellRotated(tables: seq<Table>, tables': seq<Table>, p: Place, done: set<Place>, oldKey: nat, newKey: nat)
    requires SameShape(tables, tables') && InTables(tables, p)
  {
    var before, after := CellAt(tables, p), CellAt(tables', p);
    if p in done then after.Secret? && Opened(before, oldKey).Some? && Opened(after, newKey) == Opened(before, oldKey)
    else if IsTouched(tables, p) && RowChanged(p, done) then after.Time?
    else after == before
  }

  ghost predicate AllSecrets(tables: seq<Table>, done: set<Place>) {
    forall p :: p in done <==> HoldsSecret(tables, p)
  }

  /** The outcome the command promises. */
  ghost predicate Rotation(tables: seq<Table>, tables': seq<Table>, oldKey: nat, newKey: nat) {
    exists done :: AllSecrets(tables, done) && Rotated(tables, tables', done, oldKey, newKey)
  }

  // ----------------------------------------------------------------- one update

  /** `update(table).where(pk == ...).values(column = blob)` */
  function Updated(tables: seq<Table>, t: nat, pk: nat, column: nat, blob: Blob, now: int): seq<Table>
    requires t < |tables|
  {
    var table := tables[t];
    tables[t := table.(rows := seq(|table.rows|, r requires 0 <= r < |table.rows| =>
      if table.rows[r].pk == pk then UpdatedRow(table.rows[r], table.columns, column, blob, now) else table.rows[r]))]
  }

  function UpdatedRow(row: Row, columns: seq<Column>, column: nat, blob: Blob, now: int): Row {
    row.(cells := seq(|row.cells|, c requires 0 <= c < |row.cells| =>
      if c == column then Secret(blob) else if c < |columns| && columns[c].touched then Time(now) else row.cells[c]))
  }

  lemma OneMoreRotated(tables: seq<Table>, now': seq<Table>, done: set<Place>, p: Place, plaintext: string,
                       nonce: nat, oldKey: nat, newKey: nat, now: int)
    requires SchemaValid(tables) && Rotated(tables, now', done, oldKey, newKey)
    requires HoldsSecret(tables, p) && p !in done && (forall q :: q in done ==> HoldsSecret(tables, q))
    requires Opened(CellAt(tables, p), oldKey) == Some(plaintext)
    ensures var pk := tables[p.table].rows[p.row].pk;
            Rotated(tables, Updated(now', p.table, pk, p.column, EncryptWithKey(plaintext, newKey, nonce), now), done + {p}, oldKey, newKey)
  {
    hide Contains;
    var pk := tables[p.table].rows[p.row].pk;
    var blob := EncryptWithKey(plaintext, newKey, nonce);
    var after := Updated(now', p.table, pk, p.column, blob, now);
    assert SameShape(tables, after);
    forall q | InTables(tables, q) ensures CellRotated(tables, after, q, done + {p}, oldKey, newKey) {
      assert CellRotated(tables, now', q, done, oldKey, newKey);
      assert q.table == p.table && q.row == p.row ==> RowChanged(q, done + {p});
      if q.table != p.table || q.row != p.row {
        assert CellAt(after, q) == CellAt(now', q);
        assert RowChanged(q, done + {p}) == RowChanged(q, done);
      }
    }
  }

  // ------------------------------------------------------------- the columns

  function EncryptedIn(columns: seq<Column>, table: nat): (found: seq<(nat, nat)>)
    ensures forall x :: x in found <==> x.0 == table && x.1 < |columns| && Contains(columns[x.1].name, ENCRYPTED)
    ensures forall a, b :: 0 <= a < b < |found| ==> found[a] != found[b]
  {
    if columns == [] then []
    else
      EncryptedIn(Init(columns), table) + if Contains(Last(columns).name, ENCRYPTED) then [(table, |columns| - 1)] else []
  }

  /** Every column that holds secrets, found by its name, once and in schema order. */
  function EncryptedColumns(tables: seq<Table>): (found: seq<(nat, nat)>)
    ensures forall x :: x in found <==>
              x.0 < |tables| && x.1 < |tables[x.0].columns| && Contains(tables[x.0].columns[x.1].name, ENCRYPTED)
    ensures forall a, b :: 0 <= a < b < |found| ==> found[a] != found[b]
  {
    if tables == [] then []
    else EncryptedColumns(Init(tables)) + EncryptedIn(Last(tables).columns, |tables| - 1)
  }

  // ------------------------------------------------------------ the rotation

  /** The places dealt with before row `k` of the `e`-th encrypted column. */
  ghost predicate IsPast(columns: seq<(nat, nat)>, e: nat, k: nat, p: Place)
    requires e <= |columns|
  {
    (p.table, p.column) in columns[..e] || (e < |columns| && columns[e] == (p.table, p.column) && p.row < k)
  }

  ghost predicate DoneUpTo(tables: seq<Table>, done: set<Place>, columns: seq<(nat, nat)>, e: nat, k: nat)
    requires e <= |columns|
  {
    forall p :: p in done <==> HoldsSecret(tables, p) && IsPast(columns, e, k, p)
  }

  lemma NothingDone(tables: seq<Table>, columns: seq<(nat, nat)>, oldKey: nat, newKey: nat)
    ensures Rotated(tables, tables, {}, oldKey, newKey) && DoneUpTo(tables, {}, columns, 0, 0)
  {
  }

  /** What the selection for one encrypted column yields: the original cells and keys. */
  lemma SelectedRow(tables: seq<Table>, selected: seq<Table>, done: set<Place>, e: nat, k: nat, oldKey: nat, newKey: nat)
    requires SchemaValid(tables) && Rotated(tables, selected, done, oldKey, newKey)
    requires e < |EncryptedColumns(tables)| && DoneUpTo(tables, done, EncryptedColumns(tables), e, 0)
    ensures var (t, c) := EncryptedColumns(tables)[e];
            && t < |selected| == |tables| && |selected[t].rows| == |tables[t].rows|
            && (k < |tables[t].rows| ==>
                  var p := Place(t, k, c);
                  && InTables(tables, p) && IsEncrypted(tables, p) && InTables(selected, p)
                  && CellAt(selected, p) == CellAt(tables, p) && selected[t].rows[k].pk == tables[t].rows[k].pk)
  {
    hide Contains, EncryptedIn;
    var columns := EncryptedColumns(tables);
    var (t, c) := columns[e];
    assert columns[e] in columns;
    var p := Place(t, k, c);
    if k < |tables[t].rows| {
      assert CellRotated(tables, selected, p, done, oldKey, newKey);
      assert (t, c) !in columns[..e];
    }
  }

  lemma PlacePassed(tables: seq<Table>, done: set<Place>, e: nat, k: nat, p: Place)
    requires var columns := EncryptedColumns(tables);
             e < |columns| && DoneUpTo(tables, done, columns, e, k) && columns[e] == (p.table, p.column) && p.row == k
    ensures var columns := EncryptedColumns(tables);
            && p !in done
            && (if HoldsSecret(tables, p) then DoneUpTo(tables, done + {p}, columns, e, k + 1)
                else DoneUpTo(tables, done, columns, e, k + 1))
  {
    hide HoldsSecret, EncryptedIn;
    var columns := EncryptedColumns(tables);
    assert (p.table, p.column) !in columns[..e];
    assert !IsPast(columns, e, k, p);
    forall q | q != p ensures IsPast(columns, e, k + 1, q) == IsPast(columns, e, k, q) {
    }
    assert IsPast(columns, e, k + 1, p);
  }

  lemma ColumnPassed(tables: seq<Table>, done: set<Place>, e: nat, k: nat)
    requires var columns := EncryptedColumns(tables);
             e < |columns| && columns[e].0 < |tables| && k == |tables[columns[e].0].rows| && DoneUpTo(tables, done, columns, e, k)
    ensures DoneUpTo(tables, done, EncryptedColumns(tables), e + 1, 0)
  {
    hide Contains, EncryptedIn;
    var columns := EncryptedColumns(tables);
    assert columns[..e + 1] == columns[..e] + [columns[e]];
    forall q | HoldsSecret(tables, q) ensures IsPast(columns, e + 1, 0, q) == IsPast(columns, e, k, q) {
    }
  }

  lemma AllPassed(tables: seq<Table>, tables': seq<Table>, done: set<Place>, oldKey: nat, newKey: nat)
    requires var columns := EncryptedColumns(tables);
             DoneUpTo(tables, done, columns, |columns|, 0) && Rotated(tables, tables', done, oldKey, newKey)
    ensures AllSecrets(tables, done) && AllOpen(tables, oldKey) && Rotation(tables, tables', oldKey, newKey)
  {
    hide Contains, EncryptedIn;
    var columns := EncryptedColumns(tables);
    assert columns[..|columns|] == columns;
    forall p | HoldsSecret(tables, p) ensures p in done && Opened(CellAt(tables, p), oldKey).Some? {
      assert (p.table, p.column) in columns;
      assert CellRotated(tables, tables', p, done, oldKey, newKey);
    }
  }

  lemma OneIsClosed(tables: seq<Table>, p: Place, key: nat)
    requires HoldsSecret(tables, p) && Opened(CellAt(tables, p), key).None?
    ensures !AllOpen(tables, key)
  {
  }

  lemma ShapeIsKept(tables: seq<Table>, tables': seq<Table>, done: set<Place>, oldKey: nat, newKey: nat)
    requires Rotated(tables, tables', done, oldKey, newKey)
    ensures |tables'| == |tables|
  {
  }

  lemma DoneAreSecrets(tables: seq<Table>, done: set<Place>, columns: seq<(nat, nat)>, e: nat, k: nat)
    requires e <= |columns| && DoneUpTo(tables, done, columns, e, k)
    ensures forall q :: q in done ==> HoldsSecret(tables, q)
  {
  }

  /** The tables as the session sees them, and as last committed. */
  class Database {
    var tables: seq<Table>
    var committed: seq<Table>

    /** Rotates every secret, or, if one cannot be decrypted, changes nothing at all. */
    method RotateEncryptionKey(oldKey: nat, newKey: nat, nonce: nat -> nat, clock: nat -> int) returns (rotated: Option<nat>)
      requires SchemaValid(tables) && tables == committed
      modifies this
      ensures tables == committed
      ensures rotated.Some? <==> AllOpen(old(tables), oldKey)
      ensures rotated.Some? ==> Rotation(old(tables), tables, oldKey, newKey)
      ensures rotated.None? ==> tables == old(tables)
      ensures rotated.Some? ==> exists done :: AllSecrets(old(tables), done) && |done| == rotated.value
    {
      hide Rotated, DoneUpTo, SchemaValid, AllOpen, AllSecrets, Rotation, Contains, EncryptedColumns, Updated, Opened, EncryptWithKey;
      ghost var before := tables;
      var columns := EncryptedColumns(tables);
      var count := 0;
      ghost var done := {};
      NothingDone(tables, columns, oldKey, newKey);
      for e := 0 to |columns|
        invariant Rotated(before, tables, done, oldKey, newKey) && committed == before
        invariant DoneUpTo(before, done, columns, e, 0) && count == |done|
      {
        var (t, c) := columns[e];
        ghost var selected, doneBefore := tables, done;
        SelectedRow(before, selected, doneBefore, e, 0, oldKey, newKey);
        var rows := tables[t].rows;
        for k := 0 to |rows|
          invariant Rotated(before, tables, done, oldKey, newKey) && committed == before
          invariant DoneUpTo(before, done, columns, e, k) && count == |done|
        {
          ghost var p := Place(t, k, c);
          SelectedRow(before, selected, doneBefore, e, k, oldKey, newKey);
          PlacePassed(before, done, e, k, p);
          var cell := if c < |rows[k].cells| then rows[k].cells[c] else Null;
          if !cell.Null? {
            var plaintext := Opened(cell, oldKey);
            if plaintext.None? {
              OneIsClosed(before, p, oldKey);
              tables := committed;
              return None;
            }
            DoneAreSecrets(before, done, columns, e, k);
            ShapeIsKept(before, tables, done, oldKey, newKey);
            OneMoreRotated(before, tables, done, p, plaintext.value, nonce(count), oldKey, newKey, clock(count));
            tables := Updated(tables, t, rows[k].pk, c, EncryptWithKey(plaintext.value, newKey, nonce(count)), clock(count));
            done := done + {p};
            count := count + 1;
          }
        }
        ColumnPassed(before, done, e, |rows|);
      }
      AllPassed(before, tables, done, oldKey, newKey);
      committed := tables;
      return Some(count);
    }
  }

  // ------------------------------------------------------------ what it is for

  ghost predicate RowHoldsSecret(tables: seq<Table>, p: Place) {
    exists q :: HoldsSecret(tables, q) && q.table == p.table && q.row == p.row
  }

  /** After a rotation every secret opens with the new key to what the old key opened it
      to, and with the old key, if that is another one, none does. */
  lemma SecretsSurvive(tables: seq<Table>, tables': seq<Table>, oldKey: nat, newKey: nat, p: Place)
    requires Rotation(tables, tables', oldKey, newKey) && HoldsSecret(tables, p)
    ensures HoldsSecret(tables', p) && Opened(CellAt(tables', p), newKey).Some?
    ensures Opened(CellAt(tables', p), newKey) == Opened(CellAt(tables, p), oldKey)
    ensures oldKey != newKey ==> Opened(CellAt(tables', p), oldKey).None?
  {
    hide Contains;
    var done: set<Place> :| AllSecrets(tables, done) && Rotated(tables, tables', done, oldKey, newKey);
    assert CellRotated(tables, tables', p, done, oldKey, newKey);
  }

  /** Any other cell changes exactly if it is an update time in a row with a secret. */
  lemma OtherCellsStay(tables: seq<Table>, tables': seq<Table>, oldKey: nat, newKey: nat, p: Place)
    requires Rotation(tables, tables', oldKey, newKey) && InTables(tables, p) && !HoldsSecret(tables, p)
    ensures InTables(tables', p)
    ensures if IsTouched(tables, p) && RowHoldsSecret(tables, p) then CellAt(tables', p).Time?
            else CellAt(tables', p) == CellAt(tables, p)
  {
    hide Contains;
    var done: set<Place> :| AllSecrets(tables, done) && Rotated(tables, tables', done, oldKey, newKey);
    assert CellRotated(tables, tables', p, done, oldKey, newKey);
    if RowChanged(p, done) {
      var q :| q in done && q.table == p.table && q.row == p.row;
      assert HoldsSecret(tables, q);
    }
    if RowHoldsSecret(tables, p) {
      var q :| HoldsSecret(tables, q) && q.table == p.table && q.row == p.row;
      assert q in done;
    }
  }

  const ACCOUNTS: seq<Column> := [Column("name", false), Column("encrypted_password", false), Column("updated_at", true)]

  /** One account with a secret, last updated at time 0. */
  function OneAccount(key: nat): seq<Table> {
    [Table(ACCOUNTS, [Row(1, [Plain("a"), Secret(Sealed(key, 0, "p")), Time(0)])])]
  }

  /** An input: the rotation of this database at time 5, which is a rotation in every respect,
      also changes the time of the account's last update. */
  lemma UpdateTimeChanges(oldKey: nat, newKey: nat, nonce: nat)
    ensures var before := OneAccount(oldKey);
            var after := Updated(before, 0, 1, 1, EncryptWithKey("p", newKey, nonce), 5);
            && SchemaValid(before) && Rotation(before, after, oldKey, newKey)
            && InTables(after, Place(0, 0, 2)) && CellAt(before, Place(0, 0, 2)) == Time(0) && CellAt(after, Place(0, 0, 2)) == Time(5)
  {
    var before := OneAccount(oldKey);
    var p := Place(0, 0, 1);
    OnlyPasswordsAreEncrypted();
    hide Contains;
    assert Rotated(before, before, {}, oldKey, newKey);
    OneMoreRotated(before, before, {}, p, "p", nonce, oldKey, newKey, 5);
    assert AllSecrets(before, {} + {p});
    assert {} + {p} == {p};
  }

  lemma OnlyPasswordsAreEncrypted()
    ensures Contains("encrypted_password", ENCRYPTED) && !Contains("name", ENCRYPTED)
    ensures !Contains("updated_at", ENCRYPTED)
  {
    assert OccursAt("encrypted_password", ENCRYPTED, 0);
    forall i: nat | i <= |"updated_at"| ensures !OccursAt("updated_at", ENCRYPTED, i) {
      if i + 9 <= 10 {
        assert "updated_at"[i..i + 9][0] == "updated_at"[i];
      }
    }
  }

  lemma SchemaStays(tables: seq<Table>, tables': seq<Table>, oldKey: nat, newKey: nat)
    requires SchemaValid(tables) && Rotation(tables, tables', oldKey, newKey)
    ensures SchemaValid(tables') && SameShape(tables, tables')
  {
    hide Contains;
    var done: set<Place> :| AllSecrets(tables, done) && Rotated(tables, tables', done, oldKey, newKey);
    forall p | InTables(tables', p) && IsEncrypted(tables', p)
      ensures !tables'[p.table].columns[p.column].touched && (CellAt(tables', p).Null? || CellAt(tables', p).Secret?)
    {
      assert CellRotated(tables, tables', p, done, oldKey, newKey);
    }
  }

  /** Two rotations are one: nothing depends on the keys a secret went through. */
  lemma RotationsCompose(a: seq<Table>, b: seq<Table>, c: seq<Table>, key0: nat, key1: nat, key2: nat)
    requires SchemaValid(a) && Rotation(a, b, key0, key1) && Rotation(b, c, key1, key2)
    ensures Rotation(a, c, key0, key2)
  {
    hide Contains;
    var done: set<Place> :| AllSecrets(a, done) && Rotated(a, b, done, key0, key1);
    var again: set<Place> :| AllSecrets(b, again) && Rotated(b, c, again, key1, key2);
    forall p ensures p in done <==> p in again {
      if InTables(a, p) {
        assert CellRotated(a, b, p, done, key0, key1);
      }
    }
    assert done == again;
    forall p | InTables(a, p) ensures CellRotated(a, c, p, done, key0, key2) {
      assert CellRotated(a, b, p, done, key0, key1);
      assert CellRotated(b, c, p, done, key1, key2);
    }
  }
}
