/**
 * The record table as a value: the state a Table_t holds and what each table
 * operation does to it. The class in module Tables is proved to follow these
 * transitions exactly; the lemmas here relate several operations.
 */
module TableSpec {
  import opened Wrappers
  import opened Users

  /** MAX_TABLE_SIZE: the fixed number of slots of every table. */
  const MaxTableSize: nat := 10000

  /** The file a table is bound to: its name (file_name) and the records it holds. */
  datatype Binding = Binding(name: string, records: seq<User>)

  /**
   * users and cacheMap are the two MaxTableSize-slot buffers; len is the number
   * of logical records; file is the bound file, None when fp is NULL.
   */
  datatype TableState = TableState(users: seq<User>, cacheMap: seq<bool>, len: nat, file: Option<Binding>)

  function Min(a: nat, b: nat): (m: nat) { if a <= b then a else b }

  function Max(a: nat, b: nat): (m: nat) { if a <= b then b else a }

  function StoredCount(t: TableState): (n: nat)
  {
    if t.file.Some? then |t.file.value.records| else 0
  }

  /**
   * The table invariant: len never exceeds the capacity; a slot that is not
   * resident is backed by the file; a resident slot that is also on file holds
   * the file's record; and the file is longer than the table only when the
   * table is full (a file larger than the table is cut off at its capacity).
   */
  ghost predicate Valid(t: TableState)
  {
    && |t.users| == MaxTableSize
    && |t.cacheMap| == MaxTableSize
    && t.len <= MaxTableSize
    && (forall i | 0 <= i < t.len :: !t.cacheMap[i] ==> i < StoredCount(t))
    && (forall i | 0 <= i < t.len && i < StoredCount(t) ::
          t.cacheMap[i] ==> t.users[i] == t.file.value.records[i])
    && (t.len < StoredCount(t) ==> t.len == MaxTableSize)
  }

  /** The record that slot i logically holds: the in-memory copy if resident, else the file's. */
  function Record(t: TableState, i: nat): (u: User)
    requires Valid(t) && i < t.len
  {
    if t.cacheMap[i] then t.users[i] else t.file.value.records[i]
  }

  /** The logical contents of the table, slot by slot. */
  ghost function Contents(t: TableState): (s: seq<User>)
    requires Valid(t)
    ensures |s| == t.len
    ensures forall i | 0 <= i < t.len :: s[i] == Record(t, i)
  {
    seq(t.len, i requires 0 <= i < t.len => Record(t, i))
  }

  /** A table with no records and no file; `buffer` is the uninitialised slot memory. */
  function Empty(buffer: seq<User>): (t: TableState)
    requires |buffer| == MaxTableSize
    ensures Valid(t)
    ensures t.len == 0 && t.file.None?
    ensures forall i | 0 <= i < MaxTableSize :: !t.cacheMap[i]
  {
    TableState(buffer, seq(MaxTableSize, _ => false), 0, None)
  }

  /**
   * add_User: 1 on success, 0 when the user is absent or the table is full.
   * On success the user becomes the last record and its slot is resident.
   */
  function Add(t: TableState, user: Option<User>): (r: (TableState, int))
    requires Valid(t)
    ensures Valid(r.0)
    ensures r.1 == 1 <==> user.Some? && t.len < MaxTableSize
    ensures r.1 != 1 ==> r.1 == 0 && r.0 == t
    ensures r.1 == 1 ==>
      && Contents(r.0) == Contents(t) + [user.value]
      && r.0.len == t.len + 1
      && r.0.cacheMap == t.cacheMap[t.len := true]
      && r.0.file == t.file
  {
    if user.None? || t.len == MaxTableSize then (t, 0)
    else
      var t' := t.(users := t.users[t.len := user.value], cacheMap := t.cacheMap[t.len := true], len := t.len + 1);
      assert forall i | 0 <= i < t.len :: Record(t', i) == Record(t, i);
      (t', 1)
  }

  /**
   * get_User for an index below len: returns the record slot i holds, faulting
   * it in from the file when it is not resident. Afterwards slot i is resident,
   * every other residency bit is as before, and the contents are unchanged.
   */
  function Get(t: TableState, i: nat): (r: (TableState, User))
    requires Valid(t) && i < t.len
    ensures Valid(r.0)
    ensures r.1 == Contents(t)[i]
    ensures Contents(r.0) == Contents(t)
    ensures r.0.cacheMap == t.cacheMap[i := true]
    ensures r.0.len == t.len && r.0.file == t.file
  {
    if t.cacheMap[i] then (t, t.users[i])
    else
      var u := t.file.value.records[i];
      var t' := t.(users := t.users[i := u], cacheMap := t.cacheMap[i := true]);
      assert forall j | 0 <= j < t.len :: Record(t', j) == Record(t, j);
      (t', u)
  }

  /**
   * archive_table: with no file, returns 0 and changes nothing. Otherwise it
   * appends to the file the records beyond the file's end, in slot order, and
   * returns len. The file keeps its old records as a prefix (append only) and
   * afterwards holds the whole table.
   */
  function Archive(t: TableState): (r: (TableState, int))
    requires Valid(t)
    ensures Valid(r.0)
    ensures t.file.None? ==> r == (t, 0)
    ensures t.file.Some? ==>
      && r.1 == t.len
      && r.0.file.Some?
      && r.0.file.value.name == t.file.value.name
      && |r.0.file.value.records| == Max(StoredCount(t), t.len)
      && r.0.file.value.records[..StoredCount(t)] == t.file.value.records
      && (forall i | 0 <= i < t.len :: r.0.file.value.records[i] == Contents(t)[i])
    ensures r.0.users == t.users && r.0.cacheMap == t.cacheMap && r.0.len == t.len
    ensures Contents(r.0) == Contents(t)
  {
    match t.file
    case None => (t, 0)
    case Some(b) =>
      var stored := |b.records|;
      var written := if stored < t.len then t.users[stored..t.len] else [];
      var t' := t.(file := Some(b.(records := b.records + written)));
      assert forall j | 0 <= j < t.len :: Record(t', j) == Record(t, j);
      (t', t.len)
  }

  /**
   * load_table: with no name it changes nothing and returns len. With a file
   * it binds the table to it, clears every residency bit, and the table then
   * holds the file's records (at most MaxTableSize of them) as non-resident
   * slots; records added since the last bind are dropped. Returns the new len.
   */
  function Load(t: TableState, source: Option<Binding>): (r: (TableState, int))
    requires Valid(t)
    ensures Valid(r.0)
    ensures source.None? ==> r == (t, t.len)
    ensures source.Some? ==>
      && r.0.len == Min(|source.value.records|, MaxTableSize)
      && r.0.file == source
      && (forall i | 0 <= i < MaxTableSize :: !r.0.cacheMap[i])
      && Contents(r.0) == source.value.records[..r.0.len]
      && r.0.users == t.users
    ensures r.1 == r.0.len
  {
    match source
    case None => (t, t.len)
    case Some(b) =>
      var n := Min(|b.records|, MaxTableSize);
      (TableState(t.users, seq(MaxTableSize, _ => false), n, source), n)
  }

  /** new_Table: an empty table loaded from `source` (absent when no file name is given). */
  function NewTable(buffer: seq<User>, source: Option<Binding>): (t: TableState)
    requires |buffer| == MaxTableSize
    ensures Valid(t)
    ensures forall i | 0 <= i < MaxTableSize :: !t.cacheMap[i]
    ensures t.file == source
    ensures source.None? ==> t.len == 0
    ensures source.Some? ==>
      && t.len == Min(|source.value.records|, MaxTableSize)
      && Contents(t) == source.value.records[..t.len]
  {
    Load(Empty(buffer), source).0
  }

  /** Adds `us` one user at a time, collecting add_User's results in order. */
  function AddAll(t: TableState, us: seq<User>): (r: (TableState, seq<int>))
    requires Valid(t)
    ensures Valid(r.0) && |r.1| == |us|
    decreases |us|
  {
    if us == [] then (t, [])
    else
      var (t1, ret) := Add(t, Some(us[0]));
      var (t2, rets) := AddAll(t1, us[1..]);
      (t2, [ret] + rets)
  }

  /**
   * Filling a table: each add succeeds while there is room and fails once the
   * table holds MaxTableSize records, and len stops at MaxTableSize.
   */
  lemma {:induction false} AddAllFills(t: TableState, us: seq<User>)
    requires Valid(t)
    ensures AddAll(t, us).0.len == Min(t.len + |us|, MaxTableSize)
    ensures forall k | 0 <= k < |us| :: AddAll(t, us).1[k] == (if t.len + k < MaxTableSize then 1 else 0)
    ensures AddAll(t, us).0.file == t.file
    decreases |us|
  {
    if us != [] {
      var (t1, ret) := Add(t, Some(us[0]));
      AddAllFills(t1, us[1..]);
      assert AddAll(t, us).1 == [ret] + AddAll(t1, us[1..]).1;
    }
  }

  /** After a run of adds the table holds its old records followed by the users that were accepted. */
  lemma {:induction false} AddAllContents(t: TableState, us: seq<User>)
    requires Valid(t)
    ensures Contents(AddAll(t, us).0) == Contents(t) + us[..Min(|us|, MaxTableSize - t.len)]
    decreases |us|
  {
    if us != [] {
      var t1 := Add(t, Some(us[0])).0;
      var rest := us[1..];
      AddAllContents(t1, rest);
      assert AddAll(t, us).0 == AddAll(t1, rest).0;
      if t.len < MaxTableSize {
        var accepted := rest[..Min(|rest|, MaxTableSize - t1.len)];
        assert us[..Min(|us|, MaxTableSize - t.len)] == [us[0]] + accepted;
        assert (Contents(t) + [us[0]]) + accepted == Contents(t) + ([us[0]] + accepted);
      } else {
        assert t1 == t;
        assert us[..Min(|us|, MaxTableSize - t.len)] == [] == rest[..0];
      }
    }
  }

  /** A run of adds makes the slots it fills resident and leaves every other residency bit alone. */
  lemma {:induction false} AddAllResidency(t: TableState, us: seq<User>)
    requires Valid(t)
    ensures forall i | 0 <= i < MaxTableSize ::
      AddAll(t, us).0.cacheMap[i] == (t.cacheMap[i] || t.len <= i < Min(t.len + |us|, MaxTableSize))
    decreases |us|
  {
    if us != [] {
      var t1 := Add(t, Some(us[0])).0;
      AddAllResidency(t1, us[1..]);
    }
  }

  /** Archiving a table that holds at least as many records as its file leaves exactly the table's contents on file. */
  lemma ArchiveStoresContents(t: TableState)
    requires Valid(t) && t.file.Some? && StoredCount(t) <= t.len
    ensures Archive(t).0.file.value.records == Contents(t)
  {
  }

  /**
   * Archiving and then opening the archived file in a new table gives back
   * the same records, in the same slots, all waiting to be faulted in.
   */
  lemma ArchiveThenReopen(t: TableState, buffer: seq<User>)
    requires Valid(t) && t.file.Some? && |buffer| == MaxTableSize
    ensures Contents(NewTable(buffer, Archive(t).0.file)) == Contents(t)
  {
  }

  /** With the file kept bound, a second archive in a row returns the same count and does not change the file. */
  lemma ArchiveTwice(t: TableState)
    requires Valid(t)
    ensures Archive(Archive(t).0) == Archive(t)
  {
    var a := Archive(t).0;
    if t.file.Some? {
      assert |a.file.value.records| >= a.len;
      assert a.file.value.records + [] == a.file.value.records;
    }
  }
}
