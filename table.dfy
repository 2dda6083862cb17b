/**
 * Table_t and its operations. Each method is proved to make exactly the
 * transition of the matching function in TableSpec; the heap adds only the
 * file handle, which is shared with the file system it was opened from.
 */
module Tables {
  import opened Wrappers
  import opened Users
  import opened Files
  import opened TableSpec

  class Table {
    const capacity: nat
    var users: array<User>
    var cacheMap: array<bool>
    var len: nat
    var fp: DbFile?
    var fileName: Option<string>

    /** The table's state as a value; fp and file_name together make the binding. */
    ghost function State(): (s: TableState)
      reads this, users, cacheMap, fp
    {
      TableState(users[..], cacheMap[..], len,
        if fp != null && fileName.Some? then Some(Binding(fileName.value, fp.records)) else None)
    }

    ghost predicate Valid()
      reads this, users, cacheMap, fp
    {
      && capacity == MaxTableSize
      && users.Length == MaxTableSize
      && cacheMap.Length == MaxTableSize
      && (fp == null <==> fileName.None?)
      && TableSpec.Valid(State())
    }

    /**
     * new_Table: an empty table of MaxTableSize slots, all non-resident. With a
     * name, the file is opened (created if missing) and bound, and the table
     * holds its records.
     */
    constructor (fs: FileSystem, name: Option<string>)
      modifies fs
      ensures Valid() && fresh(users) && fresh(cacheMap)
      ensures State() == NewTable(users[..],
        if name.None? then None else Some(Binding(name.value, old(fs.RecordsOf(name.value)))))
      ensures name.None? ==> fp == null && fs.files == old(fs.files)
      ensures name.Some? ==> name.value in fs.files && fp == fs.files[name.value]
      ensures name.Some? && name.value in old(fs.files) ==> fs.files == old(fs.files)
      ensures name.Some? && name.value !in old(fs.files) ==> fresh(fp) && fs.files == old(fs.files)[name.value := fp]
    {
      capacity := MaxTableSize;
      users := new User[MaxTableSize];
      cacheMap := new bool[MaxTableSize](_ => false);
      len := 0;
      fp := null;
      fileName := None;
      new;
      assert State() == Empty(users[..]);
      var _ := Load(fs, name);
    }

    /** add_User, for a present table. */
    method Add(user: Option<User>) returns (ret: int)
      requires Valid()
      modifies this`len, users, cacheMap
      ensures Valid()
      ensures (State(), ret) == TableSpec.Add(old(State()), user)
    {
      if user.None? || len == capacity {
        return 0;
      }
      users[len] := user.value;
      cacheMap[len] := true;
      len := len + 1;
      ret := 1;
    }

    /** get_User: reads slot i, from the file when it is not resident yet. */
    method Get(i: nat) returns (user: User)
      requires Valid() && i < len
      modifies users, cacheMap
      ensures Valid()
      ensures (State(), user) == TableSpec.Get(old(State()), i)
    {
      if !cacheMap[i] {
        users[i] := fp.records[i];
        cacheMap[i] := true;
      }
      user := users[i];
    }

    /** archive_table: appends the records beyond the file's end, one at a time. */
    method Archive() returns (ret: int)
      requires Valid()
      modifies fp
      ensures Valid()
      ensures (State(), ret) == TableSpec.Archive(old(State()))
    {
      if fp == null {
        return 0;
      }
      var stored := |fp.records|;
      if stored < len {
        var i := stored;
        while i < len
          invariant stored <= i <= len
          invariant fp.records == old(fp.records) + users[stored..i]
        {
          fp.records := fp.records + [users[i]];
          i := i + 1;
        }
      }
      ret := len;
      assert fp.records == old(fp.records) + (if stored < len then old(users[..])[stored..len] else []);
    }

    /**
     * load_table: without a name, nothing happens. With one, the file is
     * opened (created if missing) and bound, the whole residency map is
     * cleared and len becomes the file's record count (at most the capacity).
     */
    method Load(fs: FileSystem, name: Option<string>) returns (ret: int)
      requires Valid()
      modifies this`len, this`fp, this`fileName, cacheMap, fs
      ensures Valid()
      ensures (State(), ret) == TableSpec.Load(old(State()),
        if name.None? then None else Some(Binding(name.value, old(fs.RecordsOf(name.value)))))
      ensures name.None? ==> fp == old(fp) && fs.files == old(fs.files)
      ensures name.Some? ==> name.value in fs.files && fp == fs.files[name.value]
      ensures name.Some? && name.value in old(fs.files) ==> fs.files == old(fs.files)
      ensures name.Some? && name.value !in old(fs.files) ==> fresh(fp) && fs.files == old(fs.files)[name.value := fp]
    {
      if name.None? {
        return len;
      }
      ghost var stored := old(fs.RecordsOf(name.value));
      var f := fs.Open(name.value);
      assert f.records == stored;
      forall i | 0 <= i < cacheMap.Length {
        cacheMap[i] := false;
      }
      len := if |f.records| <= capacity then |f.records| else capacity;
      fp := f;
      fileName := name;
      ret := len;
      assert cacheMap[..] == seq(MaxTableSize, _ => false);
      assert len == Min(|stored|, MaxTableSize);
      assert users[..] == old(users[..]);
      assert State() == TableState(old(users[..]), seq(MaxTableSize, _ => false), len, Some(Binding(name.value, stored)));
    }
  }

  /** add_User(table, user): a NULL table is rejected like a NULL user. */
  method AddUser(table: Table?, user: Option<User>) returns (ret: int)
    requires table != null ==> table.Valid()
    modifies if table == null then {} else {table, table.users, table.cacheMap}
    ensures table == null ==> ret == 0
    ensures table != null ==> table.fp == old(table.fp) && table.fileName == old(table.fileName)
    ensures table != null ==> table.users == old(table.users) && table.cacheMap == old(table.cacheMap)
    ensures table != null ==> table.Valid() && (table.State(), ret) == TableSpec.Add(old(table.State()), user)
  {
    if table == null {
      return 0;
    }
    ret := table.Add(user);
  }

  /** Adds `us` one user at a time (the add loops of the tests), collecting the results. */
  method AddEach(t: Table, us: seq<User>) returns (rets: seq<int>)
    requires t.Valid()
    modifies t`len, t.users, t.cacheMap
    ensures t.Valid()
    ensures (t.State(), rets) == AddAll(old(t.State()), us)
  {
    ghost var goal := AddAll(t.State(), us);
    rets := [];
    var k := 0;
    assert us[k..] == us;
    while k < |us|
      invariant 0 <= k <= |us| && t.Valid()
      invariant goal.0 == AddAll(t.State(), us[k..]).0
      invariant goal.1 == rets + AddAll(t.State(), us[k..]).1
    {
      assert us[k..][0] == us[k] && us[k..][1..] == us[k + 1..];
      ghost var before := t.State();
      var ret := t.Add(Some(us[k]));
      ghost var rest := AddAll(t.State(), us[k + 1..]);
      assert AddAll(before, us[k..]) == (rest.0, [ret] + rest.1);
      assert rets + ([ret] + rest.1) == (rets + [ret]) + rest.1;
      rets := rets + [ret];
      k := k + 1;
    }
    assert AddAll(t.State(), us[k..]) == (t.State(), []);
    assert rets + [] == rets;
  }

  /**
   * Reads slots 0 to n - 1 in order (check_sample_table_record_match): the
   * records come back as the table holds them and those slots become resident.
   */
  method GetEach(t: Table, n: nat) returns (got: seq<User>)
    requires t.Valid() && n <= t.len
    modifies t.users, t.cacheMap
    ensures t.Valid()
    ensures got == Contents(old(t.State()))[..n]
    ensures Contents(t.State()) == Contents(old(t.State()))
    ensures t.len == old(t.len) && t.State().file == old(t.State().file)
    ensures forall i | 0 <= i < MaxTableSize :: t.cacheMap[i] == (i < n || old(t.cacheMap[i]))
  {
    got := [];
    var k := 0;
    while k < n
      invariant 0 <= k <= n && t.Valid()
      invariant got == Contents(old(t.State()))[..k]
      invariant Contents(t.State()) == Contents(old(t.State()))
      invariant t.len == old(t.len) && t.State().file == old(t.State().file)
      invariant forall i | 0 <= i < MaxTableSize :: t.cacheMap[i] == (i < k || old(t.cacheMap[i]))
    {
      var u := t.Get(k);
      got := got + [u];
      k := k + 1;
    }
  }
}
