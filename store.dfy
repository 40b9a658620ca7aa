/** `secureStore` of pkg/storage/secret/store.go over an in-memory `secure_value` table.
    The table is a sequence of rows; its unique index on (namespace, name) and its
    primary key on uid are kept as an invariant, together with the facts that every row
    reads back and every stored ciphertext decrypts. */
module Store {
  import opened Bytes
  import opened Wrappers
  import opened Errors
  import opened Codec
  import Keeper
  import Seqs

  /** The caller's UID, as `claims.From` reports it. */
  type Identity = GoString

  /** What the label selector of a list request decides; `None` is `labels.Everything()`. */
  type Selector = Option<Labels -> bool>

  predicate Matches(selector: Selector, labels: Labels) {
    selector.None? || selector.value(labels)
  }

  /** The keeper input for a stored row. */
  function SaltyOf(row: Row): Keeper.SaltyValue {
    Keeper.SaltyValue(row.value, row.salt, row.keeper, row.addr)
  }

  predicate Decryptable(row: Row) {
    Keeper.Decrypt(SaltyOf(row)).Ok?
  }

  predicate SameKey(row: Row, ns: GoString, name: GoString) {
    row.namespace == ns && row.name == name
  }

  predicate HasKey(rows: seq<Row>, ns: GoString, name: GoString) {
    exists i | 0 <= i < |rows| :: SameKey(rows[i], ns, name)
  }

  predicate HasUid(rows: seq<Row>, uid: GoString) {
    exists i | 0 <= i < |rows| :: rows[i].uid == uid
  }

  predicate KeysUnique(rows: seq<Row>) {
    forall i, j | 0 <= i < j < |rows| :: !SameKey(rows[j], rows[i].namespace, rows[i].name)
  }

  predicate UidsUnique(rows: seq<Row>) {
    forall i, j | 0 <= i < j < |rows| :: rows[i].uid != rows[j].uid
  }

  /** What every write of the store guarantees about a row: it reads back, and its
      ciphertext decrypts. */
  predicate RowOk(row: Row) {
    Canonical(row) && Decryptable(row)
  }

  predicate RowsOk(rows: seq<Row>) {
    forall i | 0 <= i < |rows| :: RowOk(rows[i])
  }

  /** The table's constraints (migrator.go: primary key uid, unique (namespace, name))
      and what the store guarantees about each row. */
  predicate TableOk(rows: seq<Row>) {
    KeysUnique(rows) && UidsUnique(rows) && RowsOk(rows)
  }

  /** The row `get` finds: the first one with the key. */
  function Lookup(rows: seq<Row>, ns: GoString, name: GoString): (r: Option<Row>)
    ensures r.None? <==> !HasKey(rows, ns, name)
    ensures r.Some? ==> r.value in rows && SameKey(r.value, ns, name)
  {
    if rows == [] then None
    else if SameKey(rows[0], ns, name) then Some(rows[0])
    else
      var r := Lookup(rows[1..], ns, name);
      assert HasKey(rows, ns, name) ==> HasKey(rows[1..], ns, name) by {
        if HasKey(rows, ns, name) {
          var i :| 0 <= i < |rows| && SameKey(rows[i], ns, name);
          assert rows[1..][i - 1] == rows[i];
        }
      }
      r
  }

  /** In a well-formed table the key picks out exactly one row. */
  lemma LookupUnique(rows: seq<Row>, ns: GoString, name: GoString, i: int)
    requires KeysUnique(rows) && 0 <= i < |rows| && SameKey(rows[i], ns, name)
    ensures Lookup(rows, ns, name) == Some(rows[i])
  {
    var r := Lookup(rows, ns, name).value;
    var j :| 0 <= j < |rows| && rows[j] == r;
  }

  /** `get` stops at the first row with the key. */
  lemma {:induction false} LookupFirst(rows: seq<Row>, ns: GoString, name: GoString, i: int)
    requires 0 <= i < |rows| && SameKey(rows[i], ns, name)
    requires forall j | 0 <= j < i :: !SameKey(rows[j], ns, name)
    ensures Lookup(rows, ns, name) == Some(rows[i])
  {
    if i > 0 {
      assert rows[1..][i - 1] == rows[i];
      LookupFirst(rows[1..], ns, name, i - 1);
    }
  }

  /** The row the key finds in a well-formed table is well formed. */
  lemma LookupRowOk(rows: seq<Row>, ns: GoString, name: GoString)
    requires RowsOk(rows) && HasKey(rows, ns, name)
    ensures RowOk(Lookup(rows, ns, name).value)
  {
    var r := Lookup(rows, ns, name).value;
    var i :| 0 <= i < |rows| && rows[i] == r;
    assert RowOk(rows[i]);
  }

  /** Rows with the same secret material decrypt alike. */
  lemma DecryptableAlike(a: Row, b: Row)
    requires RowOk(a)
    requires a.salt == b.salt && a.value == b.value && a.keeper == b.keeper && a.addr == b.addr
    ensures Decryptable(b)
  {
    assert SaltyOf(a) == SaltyOf(b);
  }

  /** `UPDATE ... WHERE namespace = ? AND name = ?`: every row with the key of `row`
      becomes `row`. */
  function Replace(rows: seq<Row>, row: Row): (r: seq<Row>)
    ensures |r| == |rows|
    ensures forall i | 0 <= i < |rows| ::
      r[i] == if SameKey(rows[i], row.namespace, row.name) then row else rows[i]
  {
    seq(|rows|, i requires 0 <= i < |rows| =>
      if SameKey(rows[i], row.namespace, row.name) then row else rows[i])
  }

  /** Writing back the row that is already stored changes nothing. */
  lemma ReplaceWithSelf(rows: seq<Row>, row: Row)
    requires KeysUnique(rows) && Lookup(rows, row.namespace, row.name) == Some(row)
    ensures Replace(rows, row) == rows
  {
    forall i | 0 <= i < |rows| && SameKey(rows[i], row.namespace, row.name)
      ensures rows[i] == row
    {
      LookupUnique(rows, row.namespace, row.name, i);
    }
  }

  /** Replacing the row of an existing key keeps keys unique, and the key now finds
      the new row. */
  lemma ReplaceLookup(rows: seq<Row>, row: Row)
    requires KeysUnique(rows) && HasKey(rows, row.namespace, row.name)
    ensures KeysUnique(Replace(rows, row))
    ensures Lookup(Replace(rows, row), row.namespace, row.name) == Some(row)
  {
    var r := Replace(rows, row);
    var i :| 0 <= i < |rows| && SameKey(rows[i], row.namespace, row.name);
    assert KeysUnique(r) by {
      forall j, k | 0 <= j < k < |r| ensures !SameKey(r[k], r[j].namespace, r[j].name) {
        assert !SameKey(rows[k], rows[j].namespace, rows[j].name);
      }
    }
    assert r[i] == row;
    LookupUnique(r, row.namespace, row.name, i);
  }

  /** Replacing the row of an existing key by a canonical, decryptable row whose uid no
      other row holds keeps the table well formed, and the key now finds the new row. */
  lemma ReplaceKeepsTable(rows: seq<Row>, row: Row)
    requires TableOk(rows) && HasKey(rows, row.namespace, row.name)
    requires RowOk(row)
    requires forall i | 0 <= i < |rows| && !SameKey(rows[i], row.namespace, row.name) :: rows[i].uid != row.uid
    ensures TableOk(Replace(rows, row))
    ensures Lookup(Replace(rows, row), row.namespace, row.name) == Some(row)
  {
    var r := Replace(rows, row);
    ReplaceLookup(rows, row);
    assert UidsUnique(r) by {
      forall j, k | 0 <= j < k < |r| ensures r[j].uid != r[k].uid {
      }
    }
    assert RowsOk(r) by {
      forall j | 0 <= j < |r| ensures RowOk(r[j]) {
        assert RowOk(rows[j]);
      }
    }
  }

  /** `DELETE FROM secure_value WHERE uid = ?`. */
  function RemoveUid(rows: seq<Row>, uid: GoString): (r: seq<Row>)
    ensures forall x :: x in r <==> x in rows && x.uid != uid
    ensures |r| <= |rows|
  {
    if rows == [] then []
    else (if rows[0].uid == uid then [] else [rows[0]]) + RemoveUid(rows[1..], uid)
  }

  /** With unique uids, removing the uid of a stored row drops exactly that row. */
  lemma {:induction false} RemoveUidOfRow(rows: seq<Row>, i: int)
    requires UidsUnique(rows) && 0 <= i < |rows|
    ensures RemoveUid(rows, rows[i].uid) == rows[..i] + rows[i + 1..]
    decreases |rows|
  {
    var uid := rows[i].uid;
    if i == 0 {
      RemoveUidNone(rows[1..], uid);
    } else {
      UidsUniqueTail(rows);
      assert rows[1..][i - 1] == rows[i];
      RemoveUidOfRow(rows[1..], i - 1);
      assert rows[0].uid != uid;
      assert RemoveUid(rows, uid) == [rows[0]] + (rows[1..][..i - 1] + rows[1..][i..]);
      DropAfterHead(rows, i);
    }
  }

  lemma DropAfterHead(rows: seq<Row>, i: int)
    requires 0 < i < |rows|
    ensures [rows[0]] + (rows[1..][..i - 1] + rows[1..][i..]) == rows[..i] + rows[i + 1..]
  {
    assert rows[..i] == [rows[0]] + rows[1..][..i - 1];
    assert rows[i + 1..] == rows[1..][i..];
  }

  lemma UidsUniqueTail(rows: seq<Row>)
    requires UidsUnique(rows) && rows != []
    ensures UidsUnique(rows[1..])
  {
    forall j, k | 0 <= j < k < |rows| - 1 ensures rows[1..][j].uid != rows[1..][k].uid {
      assert rows[1..][j] == rows[j + 1] && rows[1..][k] == rows[k + 1];
    }
  }

  lemma {:induction false} RemoveUidNone(rows: seq<Row>, uid: GoString)
    requires forall j | 0 <= j < |rows| :: rows[j].uid != uid
    ensures RemoveUid(rows, uid) == rows
    decreases |rows|
  {
    if rows != [] {
      RemoveUidNone(rows[1..], uid);
    }
  }

  /** Dropping a row keeps the remaining keys unique and frees the dropped key. */
  lemma DropKeys(rows: seq<Row>, i: int)
    requires KeysUnique(rows) && 0 <= i < |rows|
    ensures KeysUnique(rows[..i] + rows[i + 1..])
    ensures !HasKey(rows[..i] + rows[i + 1..], rows[i].namespace, rows[i].name)
  {
    var r := rows[..i] + rows[i + 1..];
    assert forall j | 0 <= j < |r| :: r[j] == rows[if j < i then j else j + 1];
    forall j, k | 0 <= j < k < |r| ensures !SameKey(r[k], r[j].namespace, r[j].name) {
      var j' := if j < i then j else j + 1;
      var k' := if k < i then k else k + 1;
      assert !SameKey(rows[k'], rows[j'].namespace, rows[j'].name);
    }
    forall j | 0 <= j < |r| ensures !SameKey(r[j], rows[i].namespace, rows[i].name) {
      var j' := if j < i then j else j + 1;
      if j' < i {
        assert !SameKey(rows[i], rows[j'].namespace, rows[j'].name);
      } else {
        assert !SameKey(rows[j'], rows[i].namespace, rows[i].name);
      }
    }
  }

  /** Dropping a row keeps the remaining uids unique. */
  lemma DropUids(rows: seq<Row>, i: int)
    requires UidsUnique(rows) && 0 <= i < |rows|
    ensures UidsUnique(rows[..i] + rows[i + 1..])
  {
    var r := rows[..i] + rows[i + 1..];
    assert forall j | 0 <= j < |r| :: r[j] == rows[if j < i then j else j + 1];
    forall j, k | 0 <= j < k < |r| ensures r[j].uid != r[k].uid {
      var j' := if j < i then j else j + 1;
      var k' := if k < i then k else k + 1;
      assert rows[j'].uid != rows[k'].uid;
    }
  }

  /** Dropping a row keeps the remaining rows well formed. */
  lemma DropRows(rows: seq<Row>, i: int)
    requires RowsOk(rows) && 0 <= i < |rows|
    ensures RowsOk(rows[..i] + rows[i + 1..])
  {
    var r := rows[..i] + rows[i + 1..];
    forall j | 0 <= j < |r| ensures RowOk(r[j]) {
      var j' := if j < i then j else j + 1;
      assert r[j] == rows[j'];
      assert RowOk(rows[j']);
    }
  }

  /** Dropping a row of a well-formed table keeps it well formed and frees its key. */
  lemma DropKeepsTable(rows: seq<Row>, i: int)
    requires TableOk(rows) && 0 <= i < |rows|
    ensures TableOk(rows[..i] + rows[i + 1..])
    ensures !HasKey(rows[..i] + rows[i + 1..], rows[i].namespace, rows[i].name)
  {
    DropKeys(rows, i);
    DropUids(rows, i);
    DropRows(rows, i);
  }

  /** What `List` returns for the rows scanned so far: `toK8s` of every row of the
      namespace whose labels the selector accepts, in table order, or the first error. */
  function Listed(rows: seq<Row>, ns: GoString, selector: Selector): Result<seq<SecureValue>, Error>
    decreases |rows|
  {
    if rows == [] then Ok([])
    else
      var items :- Listed(rows[..|rows| - 1], ns, selector);
      var row := rows[|rows| - 1];
      if row.namespace != ns then Ok(items)
      else
        var obj :- ToK8s(row);
        Ok(if Matches(selector, obj.labels) then items + [obj] else items)
  }

  /** One more row of the scan. */
  lemma ListedStep(rows: seq<Row>, i: int, ns: GoString, selector: Selector)
    requires 0 <= i < |rows| && Listed(rows[..i], ns, selector).Ok?
    ensures Listed(rows[..i + 1], ns, selector) ==
      if rows[i].namespace != ns then Listed(rows[..i], ns, selector)
      else match ToK8s(rows[i])
        case Err(e) => Err(e)
        case Ok(obj) =>
          Ok(if Matches(selector, obj.labels) then Listed(rows[..i], ns, selector).value + [obj]
             else Listed(rows[..i], ns, selector).value)
  {
    assert rows[..i + 1][..i] == rows[..i];
    assert rows[..i + 1][i] == rows[i];
  }

  /** Once a prefix of the scan fails, the whole scan fails the same way. */
  lemma {:induction false} ListedErrorSticks(rows: seq<Row>, k: int, ns: GoString, selector: Selector)
    requires 0 <= k <= |rows| && Listed(rows[..k], ns, selector).Err?
    ensures Listed(rows, ns, selector) == Listed(rows[..k], ns, selector)
    decreases |rows| - k
  {
    if k < |rows| {
      assert rows[..k + 1][..k] == rows[..k];
      ListedErrorSticks(rows, k + 1, ns, selector);
    } else {
      assert rows[..k] == rows;
    }
  }

  /** The scan after one more row, as the loop of `List` takes it: a row of another
      namespace is skipped, a row that does not read back ends the whole scan with its
      error, and a readable row is kept when the selector accepts it. */
  lemma ListedNext(rows: seq<Row>, i: int, ns: GoString, selector: Selector, items: seq<SecureValue>)
    requires 0 <= i < |rows| && Listed(rows[..i], ns, selector) == Ok(items)
    ensures rows[i].namespace != ns ==> Listed(rows[..i + 1], ns, selector) == Ok(items)
    ensures rows[i].namespace == ns && ToK8s(rows[i]).Err? ==>
      Listed(rows, ns, selector) == Err(ToK8s(rows[i]).error)
    ensures rows[i].namespace == ns && ToK8s(rows[i]).Ok? ==>
      Listed(rows[..i + 1], ns, selector) ==
        Ok(if Matches(selector, ToK8s(rows[i]).value.labels) then items + [ToK8s(rows[i]).value] else items)
  {
    ListedStep(rows, i, ns, selector);
    if rows[i].namespace == ns && ToK8s(rows[i]).Err? {
      ListedErrorSticks(rows, i + 1, ns, selector);
    }
  }

  /** Every listed item is the blank-valued resource of a row of the namespace that the
      selector accepts. */
  lemma {:induction false} ListedSound(rows: seq<Row>, ns: GoString, selector: Selector)
    requires Listed(rows, ns, selector).Ok?
    ensures forall o | o in Listed(rows, ns, selector).value ::
      o.namespace == ns && o.spec.value == [] && Matches(selector, o.labels) &&
      exists row | row in rows :: ToK8s(row) == Ok(o)
    decreases |rows|
  {
    if rows != [] {
      var init := rows[..|rows| - 1];
      ListedSound(init, ns, selector);
      assert forall row | row in init :: row in rows;
    }
  }

  /** Every row of the namespace that reads back and that the selector accepts is listed. */
  lemma {:induction false} ListedComplete(rows: seq<Row>, ns: GoString, selector: Selector)
    requires Listed(rows, ns, selector).Ok?
    ensures forall i | 0 <= i < |rows| && rows[i].namespace == ns && ToK8s(rows[i]).Ok? &&
      Matches(selector, ToK8s(rows[i]).value.labels) :: ToK8s(rows[i]).value in Listed(rows, ns, selector).value
    decreases |rows|
  {
    if rows != [] {
      var n := |rows| - 1;
      var init := rows[..n];
      var all := Listed(rows, ns, selector).value;
      assert Listed(init, ns, selector).Ok?;
      var before := Listed(init, ns, selector).value;
      assert forall o | o in before :: o in all;
      ListedComplete(init, ns, selector);
      forall i | 0 <= i < |rows| && rows[i].namespace == ns && ToK8s(rows[i]).Ok? &&
        Matches(selector, ToK8s(rows[i]).value.labels)
        ensures ToK8s(rows[i]).value in all
      {
        if i < n {
          assert init[i] == rows[i];
        }
      }
    }
  }

  /** A well-formed table always lists without error. */
  lemma {:induction false} ListedOk(rows: seq<Row>, ns: GoString, selector: Selector)
    requires RowsOk(rows)
    ensures Listed(rows, ns, selector).Ok?
    decreases |rows|
  {
    if rows != [] {
      var n := |rows| - 1;
      assert RowsOk(rows[..n]) by {
        assert forall i | 0 <= i < n :: rows[..n][i] == rows[i];
      }
      ListedOk(rows[..n], ns, selector);
      assert RowOk(rows[n]);
      CanonicalReadable(rows[n]);
      ListedStep(rows, n, ns, selector);
      assert rows[..n + 1] == rows;
    }
  }

  /** `time.Now().UTC().Truncate(time.Second)` in milliseconds. */
  function TruncateToSecond(ms: int): (r: int)
    ensures r % 1000 == 0 && r <= ms < r + 1000
  {
    ms - ms % 1000
  }

  /** Appending a well-formed row with a new key and a new uid keeps the table well formed. */
  lemma AppendKeepsTable(rows: seq<Row>, row: Row)
    requires TableOk(rows) && RowOk(row)
    requires !HasKey(rows, row.namespace, row.name) && !HasUid(rows, row.uid)
    ensures TableOk(rows + [row])
  {
    var r := rows + [row];
    assert forall i | 0 <= i < |rows| :: r[i] == rows[i];
    assert KeysUnique(r) by {
      forall i, j | 0 <= i < j < |r| ensures !SameKey(r[j], r[i].namespace, r[i].name) {
        if j == |rows| {
          assert !SameKey(rows[i], row.namespace, row.name);
        }
      }
    }
  }

  /** Another row than the one of `row`'s key already holds `row`'s uid. */
  predicate UidTaken(rows: seq<Row>, row: Row) {
    exists i | 0 <= i < |rows| :: !SameKey(rows[i], row.namespace, row.name) && rows[i].uid == row.uid
  }

  /** The caller resubmitted the plaintext that is already stored. */
  predicate ValueUnchanged(supplied: GoString, existing: Row) {
    supplied != [] && Keeper.Decrypt(SaltyOf(existing)) == Ok(supplied)
  }

  /** The caller supplied a plaintext other than the stored one. */
  predicate NewValue(supplied: GoString, existing: Row) {
    supplied != [] && !ValueUnchanged(supplied, existing)
  }

  /** What `Update` leaves behind: its result, the table, and the caller's object. */
  datatype UpdateOutcome = UpdateOutcome(result: Result<SecureValue, Error>, rows: seq<Row>, sv: SecureValue)

  /** The object after lines 330-342 of `Update`: without a resubmitted plaintext. */
  function Cleared(sv: SecureValue, existing: Row): SecureValue {
    if ValueUnchanged(sv.spec.value, existing) then sv.(spec := sv.spec.(value := [])) else sv
  }

  /** Lines 362-378 of `Update`: a new plaintext is sealed under the fresh salt, then the
      update is stamped. */
  function Stamp(row: Row, value: GoString, salt: Option<GoString>, now: int, caller: Identity): Row
    requires value != [] ==> salt.Some?
  {
    var sealed :=
      if value == [] then row
      else row.(salt := salt.value,
                value := Keeper.Encrypt(Keeper.SaltyValue(value, salt.value, row.keeper, row.addr)).value);
    sealed.(updated := now, updatedBy := caller)
  }

  /** The effect of `Update` on a table and a caller's object, step by step as the Go
      code takes them. */
  function Updated(rows: seq<Row>, sv: SecureValue, caller: Option<Identity>, salt: Option<GoString>, now: int)
    : UpdateOutcome
  {
    if caller.None? then UpdateOutcome(Err(MissingAuth), rows, sv)
    else match Lookup(rows, sv.namespace, sv.name)
      case None => UpdateOutcome(Err(NotFound), rows, sv)
      case Some(existing) => UpdatedFrom(rows, sv, existing, caller.value, salt, now)
  }

  /** `Update` once the stored row is read: the resubmitted plaintext is cleared and the
      row is rebuilt from the object. */
  function UpdatedFrom(rows: seq<Row>, sv: SecureValue, existing: Row, caller: Identity, salt: Option<GoString>, now: int)
    : UpdateOutcome
  {
    var supplied := sv.spec.value;
    var value := if NewValue(supplied, existing) then supplied else [];
    var cleared := Cleared(sv, existing);
    match RebuildRowAsWritten(cleared, existing)
    case Err(e) => UpdateOutcome(Err(e), rows, cleared)
    case Ok(row) => UpdatedWrite(rows, cleared, existing, row, value, caller, salt, now)
  }

  /** `Update` once the row is rebuilt: nothing is written when nothing changed, and
      otherwise the sealed and stamped row is written over the key. */
  function UpdatedWrite(rows: seq<Row>, cleared: SecureValue, existing: Row, row: Row, value: GoString,
                        caller: Identity, salt: Option<GoString>, now: int): UpdateOutcome
  {
    if value == [] && row == existing then UpdateOutcome(ToK8s(row), rows, cleared)
    else if value != [] && salt.None? then UpdateOutcome(Err(RandomFailure), rows, cleared)
    else
      var n := Stamp(row, value, salt, now, caller);
      if UidTaken(rows, n) then UpdateOutcome(Err(DuplicateKey), rows, cleared)
      else UpdateOutcome(ToK8s(n), Replace(rows, n), cleared)
  }

  /** The stamped row is well formed: its columns are those of the rebuilt row, and its
      ciphertext is either the stored one or a fresh sealing of the new plaintext. */
  lemma StampRowOk(rebuilt: Row, existing: Row, value: GoString, salt: Option<GoString>, now: int, caller: Identity)
    requires RowOk(existing) && Canonical(rebuilt)
    requires rebuilt.salt == existing.salt && rebuilt.value == existing.value
    requires rebuilt.keeper == existing.keeper && rebuilt.addr == existing.addr
    requires value != [] ==> salt.Some?
    ensures RowOk(Stamp(rebuilt, value, salt, now, caller))
  {
    var n := Stamp(rebuilt, value, salt, now, caller);
    assert Canonical(n);
    if value != [] {
      Keeper.DecryptEncrypt(Keeper.SaltyValue(value, salt.value, n.keeper, n.addr), n.keeper, n.addr);
    } else {
      DecryptableAlike(existing, n);
    }
  }

  /** An update keeps the table well formed. */
  lemma UpdatedKeepsTable(rows: seq<Row>, sv: SecureValue, caller: Option<Identity>, salt: Option<GoString>, now: int)
    requires TableOk(rows)
    ensures TableOk(Updated(rows, sv, caller, salt, now).rows)
  {
    var u := Updated(rows, sv, caller, salt, now);
    if u.rows != rows {
      WrittenIsReplace(rows, sv, caller, salt, now);
      var existing := Lookup(rows, sv.namespace, sv.name).value;
      var supplied := sv.spec.value;
      var value := if NewValue(supplied, existing) then supplied else [];
      var cleared := Cleared(sv, existing);
      var rebuilt := RebuildRowAsWritten(cleared, existing).value;
      var n := Stamp(rebuilt, value, salt, now, caller.value);
      LookupRowOk(rows, sv.namespace, sv.name);
      RebuildRowAsWrittenCanonical(cleared, existing);
      StampRowOk(rebuilt, existing, value, salt, now, caller.value);
      ReplaceKeepsTable(rows, n);
    }
  }

  /** An update that changes the table writes the stamped rebuilt row over the key, and
      no other row holds its uid. */
  lemma WrittenIsReplace(rows: seq<Row>, sv: SecureValue, caller: Option<Identity>, salt: Option<GoString>, now: int)
    requires Updated(rows, sv, caller, salt, now).rows != rows
    ensures caller.Some? && HasKey(rows, sv.namespace, sv.name)
    ensures var existing := Lookup(rows, sv.namespace, sv.name).value;
      var supplied := sv.spec.value;
      var value := if NewValue(supplied, existing) then supplied else [];
      var rebuilt := RebuildRowAsWritten(Cleared(sv, existing), existing);
      rebuilt.Ok? && (value != [] ==> salt.Some?) &&
      var n := Stamp(rebuilt.value, value, salt, now, caller.value);
      !UidTaken(rows, n) && Updated(rows, sv, caller, salt, now).rows == Replace(rows, n)
  {
  }

  /** The row an update leaves under the object's key. */
  function WrittenRow(rows: seq<Row>, sv: SecureValue, caller: Option<Identity>, salt: Option<GoString>, now: int): Option<Row>
  {
    Lookup(Updated(rows, sv, caller, salt, now).rows, sv.namespace, sv.name)
  }

  /** Without a caller an update fails with "missing auth info", and without a row for
      the key with "not found"; the object stays as it was in both cases. */
  lemma UpdatedRejects(rows: seq<Row>, sv: SecureValue, caller: Option<Identity>, salt: Option<GoString>, now: int)
    ensures caller.None? ==>
      Updated(rows, sv, caller, salt, now) == UpdateOutcome(Err(MissingAuth), rows, sv)
    ensures caller.Some? && !HasKey(rows, sv.namespace, sv.name) ==>
      Updated(rows, sv, caller, salt, now) == UpdateOutcome(Err(NotFound), rows, sv)
  {
  }

  /** A failed update writes nothing, and fails for one of the reasons the Go code
      reports. */
  lemma UpdatedErrors(rows: seq<Row>, sv: SecureValue, caller: Option<Identity>, salt: Option<GoString>, now: int)
    requires Updated(rows, sv, caller, salt, now).result.Err?
    ensures Updated(rows, sv, caller, salt, now).rows == rows
    ensures Updated(rows, sv, caller, salt, now).result.error in
      {MissingAuth, NotFound, SecretInAnnotations, SecretInLabels, SecretInApis,
       RandomFailure, DuplicateKey, MalformedJson}
  {
    if Updated(rows, sv, caller, salt, now).rows != rows {
      UpdatedWriteReadsBack(rows, sv, caller, salt, now);
    }
  }

  /** An update that writes a row also succeeds: the written row always reads back. */
  lemma UpdatedWriteReadsBack(rows: seq<Row>, sv: SecureValue, caller: Option<Identity>, salt: Option<GoString>, now: int)
    requires Updated(rows, sv, caller, salt, now).rows != rows
    ensures Updated(rows, sv, caller, salt, now).result.Ok?
  {
    WrittenIsReplace(rows, sv, caller, salt, now);
    var existing := Lookup(rows, sv.namespace, sv.name).value;
    var supplied := sv.spec.value;
    var value := if NewValue(supplied, existing) then supplied else [];
    var cleared := Cleared(sv, existing);
    var rebuilt := RebuildRowAsWritten(cleared, existing).value;
    RebuildRowAsWrittenCanonical(cleared, existing);
    var n := Stamp(rebuilt, value, salt, now, caller.value);
    assert Canonical(n);
    CanonicalReadable(n);
  }

  /** Only the resubmitted plaintext is cleared from the caller's object; what `Update`
      returns never holds a plaintext. */
  lemma UpdatedObject(rows: seq<Row>, sv: SecureValue, caller: Option<Identity>, salt: Option<GoString>, now: int)
    requires caller.Some? && HasKey(rows, sv.namespace, sv.name)
    ensures var u := Updated(rows, sv, caller, salt, now);
      var existing := Lookup(rows, sv.namespace, sv.name).value;
      u.sv == (if ValueUnchanged(sv.spec.value, existing) then sv.(spec := sv.spec.(value := [])) else sv) &&
      (u.result.Ok? ==> u.result.value.spec.value == [])
  {
  }

  /** Unless a new plaintext is supplied, the salt and ciphertext stay as stored; the
      keeper, the address and the creation metadata always do. */
  lemma {:induction false} UpdatedKeepsSecret(rows: seq<Row>, sv: SecureValue, caller: Option<Identity>, salt: Option<GoString>, now: int)
    requires KeysUnique(rows)
    requires Updated(rows, sv, caller, salt, now).result.Ok?
    ensures HasKey(rows, sv.namespace, sv.name) && WrittenRow(rows, sv, caller, salt, now).Some?
    ensures var existing := Lookup(rows, sv.namespace, sv.name).value;
      var n := WrittenRow(rows, sv, caller, salt, now).value;
      n.keeper == existing.keeper && n.addr == existing.addr &&
      n.created == existing.created && n.createdBy == existing.createdBy &&
      (!NewValue(sv.spec.value, existing) ==> n.salt == existing.salt && n.value == existing.value)
  {
    WrittenIsStamped(rows, sv, caller, salt, now);
  }

  /** A new plaintext is sealed under the fresh salt and decrypts back. */
  lemma {:induction false} UpdatedSealsNewValue(rows: seq<Row>, sv: SecureValue, caller: Option<Identity>, salt: Option<GoString>, now: int)
    requires KeysUnique(rows)
    requires Updated(rows, sv, caller, salt, now).result.Ok?
    requires NewValue(sv.spec.value, Lookup(rows, sv.namespace, sv.name).value)
    ensures WrittenRow(rows, sv, caller, salt, now).Some? && salt.Some?
    ensures var n := WrittenRow(rows, sv, caller, salt, now).value;
      n.salt == salt.value && Keeper.Decrypt(SaltyOf(n)) == Ok(sv.spec.value) &&
      n.updated == now && n.updatedBy == caller.value
  {
    WrittenIsStamped(rows, sv, caller, salt, now);
    var n := WrittenRow(rows, sv, caller, salt, now).value;
    Keeper.DecryptEncrypt(Keeper.SaltyValue(sv.spec.value, salt.value, n.keeper, n.addr), n.keeper, n.addr);
  }

  /** Without a new plaintext, an update whose rebuilt row equals the stored one (same
      uid, same resource version, same columns) writes nothing and returns the stored
      resource; any other successful update stamps the row with `now` and the caller. */
  lemma {:induction false} UpdatedNoOp(rows: seq<Row>, sv: SecureValue, caller: Option<Identity>, salt: Option<GoString>, now: int)
    requires KeysUnique(rows) && caller.Some? && HasKey(rows, sv.namespace, sv.name)
    ensures var existing := Lookup(rows, sv.namespace, sv.name).value;
      var u := Updated(rows, sv, caller, salt, now);
      var same := !NewValue(sv.spec.value, existing) &&
        RebuildRowAsWritten(Cleared(sv, existing), existing) == Ok(existing);
      (same ==> u.rows == rows && u.result == ToK8s(existing)) &&
      (!same && u.result.Ok? ==>
        WrittenRow(rows, sv, caller, salt, now).Some? &&
        WrittenRow(rows, sv, caller, salt, now).value.updated == now &&
        WrittenRow(rows, sv, caller, salt, now).value.updatedBy == caller.value)
  {
    var existing := Lookup(rows, sv.namespace, sv.name).value;
    var u := Updated(rows, sv, caller, salt, now);
    if !NewValue(sv.spec.value, existing) && RebuildRowAsWritten(Cleared(sv, existing), existing) == Ok(existing) {
    } else if u.result.Ok? {
      WrittenIsStamped(rows, sv, caller, salt, now);
    }
  }

  /** A new plaintext never ends up in an encoded column of the written row: it is
      still on the object when the row is rebuilt, so the leak check sees it. */
  lemma {:induction false} UpdatedNoLeak(rows: seq<Row>, sv: SecureValue, caller: Option<Identity>, salt: Option<GoString>, now: int)
    requires KeysUnique(rows)
    requires Updated(rows, sv, caller, salt, now).result.Ok?
    ensures HasKey(rows, sv.namespace, sv.name) && WrittenRow(rows, sv, caller, salt, now).Some?
    ensures NewValue(sv.spec.value, Lookup(rows, sv.namespace, sv.name).value) ==>
      !Leaks(WrittenRow(rows, sv, caller, salt, now).value, sv.spec.value)
  {
    WrittenIsStamped(rows, sv, caller, salt, now);
  }

  /** `Update` as intended: a request whose rebuilt row would hold the plaintext the
      caller supplied, resubmitted or not, is refused with the leak error and nothing is
      written; every other request does what the code as written does. */
  function UpdatedIntended(rows: seq<Row>, sv: SecureValue, caller: Option<Identity>, salt: Option<GoString>, now: int)
    : UpdateOutcome
  {
    if caller.Some? && HasKey(rows, sv.namespace, sv.name) then
      var existing := Lookup(rows, sv.namespace, sv.name).value;
      match RebuildRow(Cleared(sv, existing), sv.spec.value, existing)
      case Err(e) => UpdateOutcome(Err(e), rows, Cleared(sv, existing))
      case Ok(_) => Updated(rows, sv, caller, salt, now)
    else Updated(rows, sv, caller, salt, now)
  }

  /** The intended update keeps the table well formed, and the plaintext the caller
      supplied never ends up in an encoded column of the row it leaves under the key. */
  lemma UpdatedIntendedNoLeak(rows: seq<Row>, sv: SecureValue, caller: Option<Identity>, salt: Option<GoString>, now: int)
    requires TableOk(rows)
    requires UpdatedIntended(rows, sv, caller, salt, now).result.Ok?
    ensures TableOk(UpdatedIntended(rows, sv, caller, salt, now).rows)
    ensures Lookup(UpdatedIntended(rows, sv, caller, salt, now).rows, sv.namespace, sv.name).Some?
    ensures !Leaks(Lookup(UpdatedIntended(rows, sv, caller, salt, now).rows, sv.namespace, sv.name).value, sv.spec.value)
  {
    UpdatedKeepsTable(rows, sv, caller, salt, now);
    WrittenIsStamped(rows, sv, caller, salt, now);
  }

  /** The finding at the level of the store: as the Go code is written, resubmitting the
      stored plaintext together with labels that contain it succeeds and leaves the
      plaintext in the labels column of the row. */
  lemma UpdateResubmitLeaks(rows: seq<Row>, sv: SecureValue, caller: Identity, salt: Option<GoString>, now: int)
    requires TableOk(rows) && HasKey(rows, sv.namespace, sv.name)
    requires sv.uid == Lookup(rows, sv.namespace, sv.name).value.uid
    requires ValueUnchanged(sv.spec.value, Lookup(rows, sv.namespace, sv.name).value)
    requires Seqs.Contains(LabelsColumn(sv.labels), sv.spec.value)
    ensures Updated(rows, sv, Some(caller), salt, now).result.Ok?
    ensures WrittenRow(rows, sv, Some(caller), salt, now).Some?
    ensures Leaks(WrittenRow(rows, sv, Some(caller), salt, now).value, sv.spec.value)
  {
    var existing := Lookup(rows, sv.namespace, sv.name).value;
    var cleared := Cleared(sv, existing);
    assert !NewValue(sv.spec.value, existing);
    RebuildAsWrittenLeaks(cleared, sv.spec.value, existing);
    var row := RebuildRowAsWritten(cleared, existing).value;
    assert Updated(rows, sv, Some(caller), salt, now)
      == UpdatedWrite(rows, cleared, existing, row, [], caller, salt, now);
    if row == existing {
      LookupRowOk(rows, sv.namespace, sv.name);
      CanonicalReadable(existing);
    } else {
      RebuildRowAsWrittenCanonical(cleared, existing);
      var n := Stamp(row, [], salt, now, caller);
      UidFree(rows, existing, n);
      assert Canonical(n);
      CanonicalReadable(n);
      ReplaceLookup(rows, n);
    }
  }

  /** The intended update refuses the same request, and writes nothing. */
  lemma IntendedRefusesResubmit(rows: seq<Row>, sv: SecureValue, caller: Identity, salt: Option<GoString>, now: int)
    requires HasKey(rows, sv.namespace, sv.name)
    requires ValueUnchanged(sv.spec.value, Lookup(rows, sv.namespace, sv.name).value)
    requires Seqs.Contains(LabelsColumn(sv.labels), sv.spec.value)
    ensures UpdatedIntended(rows, sv, Some(caller), salt, now).result.Err?
    ensures UpdatedIntended(rows, sv, Some(caller), salt, now).rows == rows
  {
    var existing := Lookup(rows, sv.namespace, sv.name).value;
    RebuildAsWrittenLeaks(Cleared(sv, existing), sv.spec.value, existing);
  }

  /** A row that keeps the key and the uid of a stored row takes no other row's uid. */
  lemma UidFree(rows: seq<Row>, existing: Row, n: Row)
    requires UidsUnique(rows) && existing in rows
    requires SameKey(existing, n.namespace, n.name) && n.uid == existing.uid
    ensures !UidTaken(rows, n)
  {
    var j :| 0 <= j < |rows| && rows[j] == existing;
    forall i | 0 <= i < |rows| && rows[i].uid == n.uid
      ensures SameKey(rows[i], n.namespace, n.name)
    {
      assert i == j;
    }
  }

  /** A successful update had a caller and a stored row, rebuilt the row, and either
      wrote nothing or wrote the stamped rebuilt row over the key. */
  lemma UpdatedShape(rows: seq<Row>, sv: SecureValue, caller: Option<Identity>, salt: Option<GoString>, now: int)
    requires Updated(rows, sv, caller, salt, now).result.Ok?
    ensures caller.Some? && HasKey(rows, sv.namespace, sv.name)
    ensures var existing := Lookup(rows, sv.namespace, sv.name).value;
      var supplied := sv.spec.value;
      var value := if NewValue(supplied, existing) then supplied else [];
      var rebuilt := RebuildRowAsWritten(Cleared(sv, existing), existing);
      rebuilt.Ok? && (value != [] ==> salt.Some?) &&
      Updated(rows, sv, caller, salt, now).rows ==
        if value == [] && rebuilt.value == existing then rows
        else Replace(rows, Stamp(rebuilt.value, value, salt, now, caller.value))
  {
  }

  /** The row a successful update leaves is the rebuilt row, stamped unless nothing
      changed, and the table is that row written over the key. */
  lemma WrittenIsStamped(rows: seq<Row>, sv: SecureValue, caller: Option<Identity>, salt: Option<GoString>, now: int)
    requires KeysUnique(rows)
    requires Updated(rows, sv, caller, salt, now).result.Ok?
    ensures caller.Some? && HasKey(rows, sv.namespace, sv.name)
    ensures var existing := Lookup(rows, sv.namespace, sv.name).value;
      var supplied := sv.spec.value;
      var value := if NewValue(supplied, existing) then supplied else [];
      var rebuilt := RebuildRowAsWritten(Cleared(sv, existing), existing);
      rebuilt.Ok? && (value != [] ==> salt.Some?) &&
      WrittenRow(rows, sv, caller, salt, now) ==
        Some(if value == [] && rebuilt.value == existing then existing
             else Stamp(rebuilt.value, value, salt, now, caller.value)) &&
      Updated(rows, sv, caller, salt, now).rows == Replace(rows, WrittenRow(rows, sv, caller, salt, now).value)
  {
    UpdatedShape(rows, sv, caller, salt, now);
    var existing := Lookup(rows, sv.namespace, sv.name).value;
    var supplied := sv.spec.value;
    var value := if NewValue(supplied, existing) then supplied else [];
    var rebuilt := RebuildRowAsWritten(Cleared(sv, existing), existing).value;
    if value == [] && rebuilt == existing {
      ReplaceWithSelf(rows, existing);
    } else {
      ReplaceLookup(rows, Stamp(rebuilt, value, salt, now, caller.value));
    }
  }

  /** The caller's object, which `Create` and `Update` modify in place. */
  class SecureValueObject {
    var sv: SecureValue

    constructor(sv: SecureValue)
      ensures this.sv == sv
    {
      this.sv := sv;
    }

    /** Lines 330-342 of `Update`: a plaintext equal to the one the stored row decrypts
        to is removed from the object, so that it is not returned; the plaintext still
        to be sealed is returned ("" when there is none). */
    method ClearIfResubmitted(existing: Row) returns (value: GoString)
      modifies this
      ensures value == if NewValue(old(sv).spec.value, existing) then old(sv).spec.value else []
      ensures sv == Cleared(old(sv), existing)
    {
      value := sv.spec.value;
      if value != [] {
        var previous := Keeper.Decrypt(SaltyOf(existing));
        if previous.Ok? && previous.value == value {
          sv := sv.(spec := sv.spec.(value := []));
          value := [];
        }
      }
    }
  }

  class SecureStore {
    /** The `secure_value` table. */
    var rows: seq<Row>

    ghost predicate Valid()
      reads this
    {
      TableOk(rows)
    }

    /** `ProvideSecureValueStore`: a freshly migrated, empty table. */
    constructor()
      ensures Valid() && rows == []
    {
      rows := [];
    }

    /** `get`: the first row with the key, or "not found". */
    method Get(ns: GoString, name: GoString) returns (r: Result<Row, Error>)
      ensures r.Err? <==> !HasKey(rows, ns, name)
      ensures r.Err? ==> r.error == NotFound
      ensures r.Ok? ==> Lookup(rows, ns, name) == Some(r.value)
    {
      var i := 0;
      while i < |rows|
        invariant 0 <= i <= |rows|
        invariant forall j | 0 <= j < i :: !SameKey(rows[j], ns, name)
      {
        if SameKey(rows[i], ns, name) {
          LookupFirst(rows, ns, name, i);
          return Ok(rows[i]);
        }
        i := i + 1;
      }
      return Err(NotFound);
    }

    /** `Read`: the stored resource, never with its plaintext. */
    method Read(ns: GoString, name: GoString) returns (r: Result<SecureValue, Error>)
      ensures !HasKey(rows, ns, name) ==> r == Err(NotFound)
      ensures HasKey(rows, ns, name) ==> r == ToK8s(Lookup(rows, ns, name).value)
      ensures r.Ok? ==> r.value.spec.value == [] && r.value.namespace == ns && r.value.name == name
      ensures Valid() && HasKey(rows, ns, name) ==> r.Ok?
    {
      var row :- Get(ns, name);
      if Valid() {
        CanonicalReadable(row);
      }
      r := ToK8s(row);
    }

    /** `List`: the namespace's resources whose labels the selector accepts, without
        their plaintexts; a row that does not read back aborts the listing. */
    method List(ns: GoString, selector: Selector) returns (r: Result<seq<SecureValue>, Error>)
      ensures r == Listed(rows, ns, selector)
    {
      var items: seq<SecureValue> := [];
      var i := 0;
      while i < |rows|
        invariant 0 <= i <= |rows|
        invariant Listed(rows[..i], ns, selector) == Ok(items)
      {
        var row := rows[i];
        ListedNext(rows, i, ns, selector, items);
        if row.namespace == ns {
          var obj := ToK8s(row);
          if obj.Err? {
            return Err(obj.error);
          }
          if Matches(selector, obj.value.labels) {
            items := items + [obj.value];
          }
        }
        i := i + 1;
      }
      assert rows[..|rows|] == rows;
      return Ok(items);
    }

    /** `Decrypt`: the stored resource with the plaintext the keeper recovers. */
    method Decrypt(ns: GoString, name: GoString) returns (r: Result<SecureValue, Error>)
      ensures !HasKey(rows, ns, name) ==> r == Err(NotFound)
      ensures r.Ok? ==> HasKey(rows, ns, name)
      ensures r.Ok? ==>
        var row := Lookup(rows, ns, name).value;
        ToK8s(row).Ok? && Keeper.Decrypt(SaltyOf(row)) == Ok(r.value.spec.value) &&
        r.value == ToK8s(row).value.(spec := ToK8s(row).value.spec.(value := r.value.spec.value))
      ensures r.Err? ==> r.error in {NotFound, MalformedJson, CorruptBase64, SaltNotFound}
      ensures Valid() && HasKey(rows, ns, name) ==> r.Ok?
    {
      var row :- Get(ns, name);
      if Valid() {
        CanonicalReadable(row);
      }
      var v :- ToK8s(row);
      var plain :- Keeper.Decrypt(SaltyOf(row));
      r := Ok(v.(spec := v.spec.(value := plain)));
    }

    /** `Delete`: removes the row of the key; reports `true` when a row went away. */
    method Delete(ns: GoString, name: GoString) returns (r: Result<bool, Error>)
      requires Valid()
      modifies this
      ensures Valid()
      ensures !HasKey(old(rows), ns, name) ==> r == Err(NotFound) && rows == old(rows)
      ensures HasKey(old(rows), ns, name) ==>
        r == Ok(true) &&
        rows == RemoveUid(old(rows), Lookup(old(rows), ns, name).value.uid) &&
        |rows| == |old(rows)| - 1 && !HasKey(rows, ns, name)
    {
      var existing :- Get(ns, name);
      var i :| 0 <= i < |rows| && rows[i] == existing;
      RemoveUidOfRow(rows, i);
      DropKeepsTable(rows, i);
      rows := RemoveUid(rows, existing.uid);
      r := Ok(true);
    }

    /** `Create`: checks the caller and the request, stamps the creation time (to the
        second) on the caller's object, and inserts a row with a fresh uid, the caller
        as creator and updater, and the plaintext sealed under a fresh salt. `uid`,
        `salt` (`None` when no random bytes could be read) and the two clock readings
        `now` and `later` (milliseconds) are the environment's. */
    method Create(caller: Option<Identity>, obj: SecureValueObject, uid: GoString,
                  salt: Option<GoString>, now: int, later: int) returns (r: Result<SecureValue, Error>)
      requires Valid()
      modifies this, obj
      ensures Valid()
      ensures caller.None? ==> r == Err(MissingAuth)
      ensures caller.Some? && old(obj.sv).name == [] ==> r == Err(MissingName)
      ensures caller.Some? && old(obj.sv).name != [] && old(obj.sv).spec.value == [] ==> r == Err(MissingValue)
      ensures obj.sv ==
        if caller.Some? && old(obj.sv).name != [] && old(obj.sv).spec.value != []
        then old(obj.sv).(creationTimestamp := TruncateToSecond(now)) else old(obj.sv)
      ensures r.Err? ==> rows == old(rows)
      ensures r.Err? ==>
        r.error in {MissingAuth, MissingName, MissingValue, SecretInAnnotations, SecretInLabels,
                    SecretInApis, RandomFailure, DuplicateKey}
      ensures r.Ok? <==>
        caller.Some? && old(obj.sv).name != [] && old(obj.sv).spec.value != [] &&
        ToRow(obj.sv).Ok? && salt.Some? &&
        !HasKey(old(rows), obj.sv.namespace, obj.sv.name) && !HasUid(old(rows), uid)
      ensures r.Ok? ==> |rows| == |old(rows)| + 1 && rows[..|old(rows)|] == old(rows)
      ensures r.Ok? ==>
        var n := rows[|rows| - 1];
        var plain := obj.sv.spec.value;
        n == ToRow(obj.sv).value.(
          uid := uid, createdBy := caller.value, updatedBy := caller.value, updated := later,
          salt := salt.value, value := Keeper.Encrypt(Keeper.SaltyValue(plain, salt.value, [], [])).value) &&
        Keeper.Decrypt(SaltyOf(n)) == Ok(plain) && !Leaks(n, plain) &&
        r == ToK8s(n) && r.value.spec.value == []
    {
      if caller.None? {
        return Err(MissingAuth);
      }
      if obj.sv.name == [] {
        return Err(MissingName);
      }
      if obj.sv.spec.value == [] {
        return Err(MissingValue);
      }
      obj.sv := obj.sv.(creationTimestamp := TruncateToSecond(now));
      var row :- ToRow(obj.sv);
      row := row.(uid := uid, createdBy := caller.value, updatedBy := caller.value, updated := later);
      if salt.None? {
        return Err(RandomFailure);
      }
      row := row.(salt := salt.value);
      // The default keeper never fails.
      var sealed := Keeper.SaltyValue(obj.sv.spec.value, row.salt, row.keeper, row.addr);
      row := row.(value := Keeper.Encrypt(sealed).value);
      if HasKey(rows, row.namespace, row.name) || HasUid(rows, row.uid) {
        return Err(DuplicateKey);
      }
      Keeper.DecryptEncrypt(sealed, row.keeper, row.addr);
      ToRowCanonical(obj.sv);
      ToK8sToRow(obj.sv);
      AppendKeepsTable(rows, row);
      rows := rows + [row];
      r := ToK8s(row);
    }

    /** `Update`: rebuilds the row of the object's key from the caller's object. A
        resubmitted plaintext is cleared from the object; unless a new plaintext was
        supplied the salt and ciphertext stay; when nothing changed at all nothing is
        written. Otherwise the row is written with the clock reading `now` and the
        caller as updater. `salt` is the random source's output (`None`: it failed).
        As in the Go code, the leak check only sees the cleared object. */
    method Update(caller: Option<Identity>, obj: SecureValueObject, salt: Option<GoString>, now: int)
      returns (r: Result<SecureValue, Error>)
      requires Valid()
      modifies this, obj
      ensures Valid()
      ensures Updated(old(rows), old(obj.sv), caller, salt, now) == UpdateOutcome(r, rows, obj.sv)
    {
      if caller.None? {
        return Err(MissingAuth);
      }
      var existing :- Get(obj.sv.namespace, obj.sv.name);
      assert Updated(rows, obj.sv, caller, salt, now) == UpdatedFrom(rows, obj.sv, existing, caller.value, salt, now);
      UpdatedKeepsTable(rows, obj.sv, caller, salt, now);
      r := UpdateFound(caller.value, obj, existing, salt, now);
    }

    /** Lines 330-356 of `Update`, once the stored row is read: a resubmitted plaintext
        is cleared from the object, and the row is rebuilt from it. */
    method UpdateFound(caller: Identity, obj: SecureValueObject, existing: Row, salt: Option<GoString>, now: int)
      returns (r: Result<SecureValue, Error>)
      requires Valid()
      requires TableOk(UpdatedFrom(rows, obj.sv, existing, caller, salt, now).rows)
      modifies this, obj
      ensures Valid()
      ensures UpdatedFrom(old(rows), old(obj.sv), existing, caller, salt, now) == UpdateOutcome(r, rows, obj.sv)
    {
      var value := obj.ClearIfResubmitted(existing);
      assert Valid();
      var row :- RebuildRowAsWritten(obj.sv, existing);
      assert UpdatedFrom(rows, old(obj.sv), existing, caller, salt, now)
        == UpdatedWrite(rows, obj.sv, existing, row, value, caller, salt, now);
      r := WriteRebuilt(existing, row, value, caller, salt, now, obj.sv);
    }

    /** Lines 358-399 of `Update`: nothing is written when no new plaintext was supplied
        and the rebuilt row equals the stored one; otherwise a new plaintext is sealed
        under the fresh salt, the row is stamped with `now` and the caller, and written
        over the key unless another row holds its uid. */
    method WriteRebuilt(existing: Row, rebuilt: Row, value: GoString, caller: Identity,
                        salt: Option<GoString>, now: int, ghost cleared: SecureValue)
      returns (r: Result<SecureValue, Error>)
      requires Valid()
      requires TableOk(UpdatedWrite(rows, cleared, existing, rebuilt, value, caller, salt, now).rows)
      modifies this
      ensures Valid()
      ensures UpdatedWrite(old(rows), cleared, existing, rebuilt, value, caller, salt, now) == UpdateOutcome(r, rows, cleared)
    {
      var row := rebuilt;
      if value == [] && row == existing {
        return ToK8s(row);
      }
      if value != [] {
        if salt.None? {
          return Err(RandomFailure);
        }
        row := row.(salt := salt.value);
        // The default keeper never fails.
        row := row.(value := Keeper.Encrypt(Keeper.SaltyValue(value, row.salt, row.keeper, row.addr)).value);
      }
      row := row.(updated := now, updatedBy := caller);
      assert row == Stamp(rebuilt, value, salt, now, caller);
      if UidTaken(rows, row) {
        return Err(DuplicateKey);
      }
      rows := Replace(rows, row);
      r := ToK8s(row);
    }
  }
}
