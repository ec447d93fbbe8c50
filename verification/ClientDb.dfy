/** The client's tables and the operations on them (crates/deltaship-db/src/client.rs, schema.rs, models.rs). */
module ClientDb {
  import opened Text
  import opened Versions
  import opened Bytes

  const HASH_SIZE: nat := 32
  const MAX_VERSION_LENGTH: nat := 255

  type BinaryId = string
  type RowId = nat

  datatype Binary = Binary(name: string, platform: string, installPath: string, publicKey: seq<u8>,
                           currentId: Option<string>, currentText: Option<string>)

  datatype Installed = Installed(binary: BinaryId, versionId: string, text: string, blake3: seq<u8>, sha256: seq<u8>,
                                 size: int, current: bool)

  datatype Backup = Backup(binary: BinaryId, versionId: string, text: string, path: string, hash: seq<u8>, size: int,
                           expires: Option<string>)

  datatype Tables = Tables(binaries: map<BinaryId, Binary>, installed: map<RowId, Installed>, nextInstalled: RowId,
                           backups: map<RowId, Backup>, nextBackup: RowId)

  const EMPTY: Tables := Tables(map[], map[], 1, map[], 1)

  /* Version strings */

  predicate IsAscii(s: string) {
    forall i | 0 <= i < |s| :: s[i] < '\U{0080}'
  }

  function StripV(s: string): string {
    if s != "" && (s[0] == 'v' || s[0] == 'V') then s[1..] else s
  }

  /** `normalize_version_string`. */
  function Normalize(text: string): (r: Option<string>)
    ensures r.Some? ==> Parse(r.value).Some? && |r.value| <= MAX_VERSION_LENGTH
  {
    var s := StripV(Trim(text));
    if !IsAscii(Trim(text)) || |s| > MAX_VERSION_LENGTH then None
    else
      var v := Parse(s);
      if v.None? || (v.value.major == 0 && v.value.minor == 0 && v.value.patch == 0) then None else Some(s)
  }

  predicate IsNull(v: Version) {
    v.major == 0 && v.minor == 0 && v.patch == 0
  }

  /** A normalised text is its own normal form: the display of a version that is not 0.0.0, and what remains of the
      trimmed original once a leading v is taken off. */
  lemma NormalIsFixed(text: string)
    requires Normalize(text).Some?
    ensures var s := Normalize(text).value;
            && Normalize(s) == Some(s) && (Trim(text) == s || Trim(text) == "v" + s || Trim(text) == "V" + s)
            && IsValid(Parse(s).value) && Show(Parse(s).value) == s && !IsNull(Parse(s).value)
  {
    var s, t := Normalize(text).value, Trim(text);
    ShowParse(s);
    ShowEnds(Parse(s).value);
    TrimFixed(s);
    StrippedLead(t);
  }

  lemma StrippedLead(t: string)
    ensures t == StripV(t) || t == "v" + StripV(t) || t == "V" + StripV(t)
  {
    if StripV(t) != t {
      assert t == [t[0]] + t[1..];
    }
  }

  lemma ShowIsAscii(v: Version)
    requires IsValid(v)
    ensures IsAscii(Show(v))
  {
    ShowChars(v);
  }

  lemma LeadIsStripped(s: string, lead: string)
    requires s != "" && IsDigit(s[0]) && !IsWhitespace(s[|s| - 1]) && IsAscii(s)
    requires lead == "" || lead == "v" || lead == "V"
    ensures Trim(lead + s) == lead + s && StripV(lead + s) == s && IsAscii(lead + s)
  {
    var t := lead + s;
    assert t[|t| - 1] == s[|s| - 1];
    TrimFixed(t);
    if lead == "" {
      assert t == s;
    } else {
      assert t[0] == lead[0] && t[1..] == s;
    }
  }

  /** Every valid version but 0.0.0 whose text is not too long normalises to its own text, with or without a v
      in front. */
  lemma NormalizeAccepts(v: Version, lead: string)
    requires IsValid(v) && (lead == "" || lead == "v" || lead == "V")
    ensures Normalize(lead + Show(v)) == if IsNull(v) || |Show(v)| > MAX_VERSION_LENGTH then None else Some(Show(v))
  {
    ParseShow(v);
    ShowEnds(v);
    ShowIsAscii(v);
    LeadIsStripped(Show(v), lead);
  }

  /* Constraints */

  predicate NameTaken(t: Tables, name: string) {
    exists b | b in t.binaries :: t.binaries[b].name == name
  }

  predicate HasVersion(t: Tables, b: BinaryId, versionId: string) {
    exists r | r in t.installed :: t.installed[r].binary == b && t.installed[r].versionId == versionId
  }

  ghost predicate NamesUnique(binaries: map<BinaryId, Binary>) {
    forall a, b | a in binaries && b in binaries && binaries[a].name == binaries[b].name :: a == b
  }

  /** `UNIQUE (binary_id, version_id)`. */
  ghost predicate VersionsUnique(installed: map<RowId, Installed>) {
    forall r, q | r in installed && q in installed && installed[r].binary == installed[q].binary
                  && installed[r].versionId == installed[q].versionId :: r == q
  }

  /** The partial unique index on `is_current`. */
  predicate OneCurrent(installed: map<RowId, Installed>) {
    forall r, q | r in installed && q in installed && installed[r].current && installed[q].current
                  && installed[r].binary == installed[q].binary :: r == q
  }

  ghost predicate References(t: Tables) {
    && (forall r | r in t.installed :: t.installed[r].binary in t.binaries && r < t.nextInstalled)
    && forall r | r in t.backups :: t.backups[r].binary in t.binaries && r < t.nextBackup
  }

  /** Row `r` is the current version of `b`. */
  predicate IsCurrent(installed: map<RowId, Installed>, b: BinaryId, r: RowId) {
    r in installed && installed[r].binary == b && installed[r].current
  }

  /** `current_version_id` is set exactly when the binary has a current row, and names that row's version. */
  ghost predicate CurrentNamed(t: Tables) {
    && (forall b | b in t.binaries && t.binaries[b].currentId.Some? :: exists r :: IsCurrent(t.installed, b, r))
    && forall r | r in t.installed && t.installed[r].current && t.installed[r].binary in t.binaries ::
         t.binaries[t.installed[r].binary].currentId == Some(t.installed[r].versionId)
  }

  ghost predicate Consistent(t: Tables) {
    && NamesUnique(t.binaries) && VersionsUnique(t.installed) && OneCurrent(t.installed)
    && References(t) && CurrentNamed(t)
  }

  /* What each operation comes to */

  function Register(t: Tables, b: BinaryId, name: string, platform: string, path: string, key: seq<u8>)
    : (bool, Tables) {
    if b in t.binaries || NameTaken(t, name) then (false, t)
    else (true, t.(binaries := t.binaries[b := Binary(name, platform, path, key, None, None)]))
  }

  function RecordInstalled(t: Tables, b: BinaryId, versionId: string, text: string, blake3: seq<u8>, sha256: seq<u8>,
                           size: int): (bool, Tables) {
    if |blake3| != HASH_SIZE || |sha256| != HASH_SIZE || Normalize(text).None? || size <= 0
       || b !in t.binaries || HasVersion(t, b, versionId) then (false, t)
    else
      var row := Installed(b, versionId, Normalize(text).value, blake3, sha256, size, false);
      (true, t.(installed := t.installed[t.nextInstalled := row], nextInstalled := t.nextInstalled + 1))
  }

  /** Exactly the named version of `b` is current; other binaries keep theirs. */
  function MarkCurrent(installed: map<RowId, Installed>, b: BinaryId, versionId: string): map<RowId, Installed> {
    map r | r in installed ::
      if installed[r].binary == b then installed[r].(current := installed[r].versionId == versionId) else installed[r]
  }

  function UpdateCurrent(t: Tables, b: BinaryId, versionId: string, text: string): (bool, Tables) {
    if b !in t.binaries || !HasVersion(t, b, versionId) then (false, t)
    else (true, t.(binaries := t.binaries[b := t.binaries[b].(currentId := Some(versionId), currentText := Some(text))],
                   installed := MarkCurrent(t.installed, b, versionId)))
  }

  function Delete(t: Tables, b: BinaryId): (bool, Tables) {
    if b !in t.binaries then (false, t)
    else (true, t.(binaries := t.binaries - {b},
                   installed := map r | r in t.installed && t.installed[r].binary != b :: t.installed[r],
                   backups := map r | r in t.backups && t.backups[r].binary != b :: t.backups[r]))
  }

  function CreateBackup(t: Tables, b: BinaryId, versionId: string, text: string, path: string, hash: seq<u8>, size: int,
                        expires: Option<string>): (bool, Tables) {
    if |hash| != HASH_SIZE || Normalize(text).None? || b !in t.binaries then (false, t)
    else
      var row := Backup(b, versionId, Normalize(text).value, path, hash, size, expires);
      (true, t.(backups := t.backups[t.nextBackup := row], nextBackup := t.nextBackup + 1))
  }

  /* Operations as the program runs them */

  /** A statement that the database itself fails to run. */
  datatype Trouble = NoTrouble | FailsAt(statement: nat)

  class Database {
    var tables: Tables

    ghost predicate Valid()
      reads this
    {
      Consistent(tables)
    }

    constructor ()
      ensures Valid() && tables == EMPTY
    {
      tables := EMPTY;
    }

    method RegisterBinary(b: BinaryId, name: string, platform: string, path: string, key: seq<u8>, known: bool,
                          trouble: Trouble) returns (ok: bool)
      requires Valid()
      modifies this
      ensures Valid()
      ensures if known && trouble.NoTrouble? then (ok, tables) == Register(old(tables), b, name, platform, path, key)
              else !ok && tables == old(tables)
    {
      if !known || trouble.FailsAt? || b in tables.binaries || NameTaken(tables, name) {
        return false;
      }
      RegisterKeeps(tables, b, name, platform, path, key);
      tables := tables.(binaries := tables.binaries[b := Binary(name, platform, path, key, None, None)]);
      return true;
    }

    method RecordInstalledVersion(b: BinaryId, versionId: string, text: string, blake3: seq<u8>, sha256: seq<u8>,
                                  size: int, trouble: Trouble) returns (ok: bool)
      requires Valid()
      modifies this
      ensures Valid()
      ensures if trouble.NoTrouble?
              then (ok, tables) == RecordInstalled(old(tables), b, versionId, text, blake3, sha256, size)
              else !ok && tables == old(tables)
    {
      var normalized := Normalize(text);
      if |blake3| != HASH_SIZE || |sha256| != HASH_SIZE || normalized.None? || size <= 0 || trouble.FailsAt? {
        return false;
      }
      if b !in tables.binaries || HasVersion(tables, b, versionId) {
        return false;
      }
      RecordInstalledKeeps(tables, b, versionId, text, blake3, sha256, size);
      var row := Installed(b, versionId, normalized.value, blake3, sha256, size, false);
      tables := tables.(installed := tables.installed[tables.nextInstalled := row],
                        nextInstalled := tables.nextInstalled + 1);
      return true;
    }

    /** `UPDATE installed_versions SET is_current = 0 WHERE binary_id = ?` */
    method ClearCurrent(b: BinaryId)
      modifies this
      ensures tables == old(tables).(installed := Cleared(old(tables).installed, b))
    {
      tables := tables.(installed := Cleared(tables.installed, b));
    }

    /** `UPDATE managed_binaries SET current_version_id = ?, ... WHERE binary_id = ?` */
    method PointAt(b: BinaryId, versionId: string, text: string) returns (affected: nat)
      modifies this
      ensures affected == if b in old(tables).binaries then 1 else 0
      ensures tables == if b in old(tables).binaries then Pointed(old(tables), b, versionId, text) else old(tables)
    {
      if b !in tables.binaries {
        return 0;
      }
      tables := Pointed(tables, b, versionId, text);
      return 1;
    }

    /** `UPDATE installed_versions SET is_current = 1 WHERE binary_id = ? AND version_id = ?`; the partial unique
        index may refuse it. */
    method SetCurrent(b: BinaryId, versionId: string) returns (affected: nat, refused: bool)
      modifies this
      ensures refused <==> !OneCurrent(Raised(old(tables).installed, b, versionId))
      ensures affected == 0 <==> refused || !HasVersion(old(tables), b, versionId)
      ensures tables == if refused then old(tables)
                        else old(tables).(installed := Raised(old(tables).installed, b, versionId))
    {
      var raised := Raised(tables.installed, b, versionId);
      if !OneCurrent(raised) {
        return 0, true;
      }
      affected := |Matching(tables.installed, b, versionId)|;
      AffectedRows(tables, b, versionId);
      tables := tables.(installed := raised);
      refused := false;
    }

    /** Statement by statement, inside a transaction. */
    method UpdateCurrentVersion(b: BinaryId, versionId: string, text: string, trouble: Trouble) returns (ok: bool)
      requires Valid()
      modifies this
      ensures Valid()
      ensures ok <==> UpdateCurrent(old(tables), b, versionId, text).0 && !(trouble.FailsAt? && trouble.statement <= 3)
      ensures tables == if ok then UpdateCurrent(old(tables), b, versionId, text).1 else old(tables)
    {
      var begun := tables;
      if trouble == FailsAt(0) {
        return false;
      }
      ClearCurrent(b);
      if trouble == FailsAt(1) {
        tables := begun;
        return false;
      }
      var affected := PointAt(b, versionId, text);
      if affected == 0 {
        tables := begun;
        return false;
      }
      if trouble == FailsAt(2) {
        tables := begun;
        return false;
      }
      assert begun.installed.Keys == tables.installed.Keys;
      SetAfterClear(begun, b, versionId);
      var rows, refused := SetCurrent(b, versionId);
      if refused || rows == 0 || trouble == FailsAt(3) {
        tables := begun;
        return false;
      }
      UpdateCurrentKeeps(begun, b, versionId, text);
      return true;
    }

    /** Deleting a binary deletes its rows in the other tables. */
    method DeleteManagedBinary(b: BinaryId, trouble: Trouble) returns (ok: bool)
      requires Valid()
      modifies this
      ensures Valid()
      ensures if trouble.NoTrouble? then (ok, tables) == Delete(old(tables), b) else !ok && tables == old(tables)
    {
      if trouble.FailsAt? || b !in tables.binaries {
        return false;
      }
      DeleteKeeps(tables, b);
      tables := Delete(tables, b).1;
      return true;
    }

    method RecordBackup(b: BinaryId, versionId: string, text: string, path: string, hash: seq<u8>, size: int,
                        expires: Option<string>, wellFormed: bool, trouble: Trouble) returns (ok: bool)
      requires Valid()
      modifies this
      ensures Valid()
      ensures if wellFormed && trouble.NoTrouble?
              then (ok, tables) == CreateBackup(old(tables), b, versionId, text, path, hash, size, expires)
              else !ok && tables == old(tables)
    {
      if |hash| != HASH_SIZE || !wellFormed || Normalize(text).None? || trouble.FailsAt? || b !in tables.binaries {
        return false;
      }
      CreateBackupKeeps(tables, b, versionId, text, path, hash, size, expires);
      tables := CreateBackup(tables, b, versionId, text, path, hash, size, expires).1;
      return true;
    }

    /** `delete_backup`, `delete_expired_backups` and `cleanup_old_backups` differ only in the rows they select. */
    method DeleteBackups(rows: set<RowId>)
      requires Valid()
      modifies this
      ensures Valid() && tables == old(tables).(backups := old(tables).backups - rows)
    {
      tables := tables.(backups := tables.backups - rows);
    }
  }

  function Cleared(installed: map<RowId, Installed>, b: BinaryId): map<RowId, Installed> {
    map r | r in installed :: if installed[r].binary == b then installed[r].(current := false) else installed[r]
  }

  function Pointed(t: Tables, b: BinaryId, versionId: string, text: string): Tables
    requires b in t.binaries
  {
    t.(binaries := t.binaries[b := t.binaries[b].(currentId := Some(versionId), currentText := Some(text))])
  }

  function Raised(installed: map<RowId, Installed>, b: BinaryId, versionId: string): map<RowId, Installed> {
    map r | r in installed ::
      if installed[r].binary == b && installed[r].versionId == versionId
      then installed[r].(current := true) else installed[r]
  }

  function Matching(installed: map<RowId, Installed>, b: BinaryId, versionId: string): set<RowId> {
    set r | r in installed && installed[r].binary == b && installed[r].versionId == versionId
  }

  lemma AffectedRows(t: Tables, b: BinaryId, versionId: string)
    ensures |Matching(t.installed, b, versionId)| == 0 <==> !HasVersion(t, b, versionId)
  {
    if r :| r in t.installed && t.installed[r].binary == b && t.installed[r].versionId == versionId {
      assert r in Matching(t.installed, b, versionId);
    }
  }

  /** Clearing and then setting marks exactly the named version, which the index accepts. */
  lemma SetAfterClear(t: Tables, b: BinaryId, versionId: string)
    requires VersionsUnique(t.installed) && OneCurrent(t.installed)
    ensures Raised(Cleared(t.installed, b), b, versionId) == MarkCurrent(t.installed, b, versionId)
    ensures OneCurrent(MarkCurrent(t.installed, b, versionId))
    ensures forall u: Tables | u.installed == Cleared(t.installed, b) ::
              HasVersion(u, b, versionId) <==> HasVersion(t, b, versionId)
  {
    var cleared := Cleared(t.installed, b);
    forall u: Tables | u.installed == cleared ensures HasVersion(u, b, versionId) <==> HasVersion(t, b, versionId) {
      if r :| r in t.installed && t.installed[r].binary == b && t.installed[r].versionId == versionId {
        assert cleared[r].binary == b;
      }
    }
  }

  /* Each operation, in plain terms */

  /** Registration succeeds exactly for an id and a name that are free; the new record holds what was given, with no
      current version, and nothing else changes. */
  lemma RegisterIs(t: Tables, b: BinaryId, name: string, platform: string, path: string, key: seq<u8>)
    ensures var (ok, t') := Register(t, b, name, platform, path, key);
            && (ok <==> b !in t.binaries && forall a | a in t.binaries :: t.binaries[a].name != name)
            && t' == t.(binaries := t'.binaries)
            && t'.binaries - {b} == t.binaries - {b}
            && (if ok then
                  && b in t'.binaries && t'.binaries[b].name == name && t'.binaries[b].platform == platform
                  && t'.binaries[b].installPath == path && t'.binaries[b].publicKey == key
                  && t'.binaries[b].currentId == None && t'.binaries[b].currentText == None
                else t' == t)
  {
  }

  /** Recording succeeds exactly for 32-byte hashes, an acceptable text, a positive size, a registered binary and a
      version it has no row of; the new row holds what was given and is not current, and nothing else changes. */
  lemma RecordInstalledIs(t: Tables, b: BinaryId, versionId: string, text: string, blake3: seq<u8>, sha256: seq<u8>,
                          size: int)
    requires t.nextInstalled !in t.installed
    ensures var (ok, t') := RecordInstalled(t, b, versionId, text, blake3, sha256, size);
            && (ok <==> && |blake3| == 32 && |sha256| == 32 && Normalize(text).Some? && size > 0 && b in t.binaries
                        && forall r | r in t.installed ::
                             t.installed[r].binary != b || t.installed[r].versionId != versionId)
            && (!ok ==> t' == t)
            && (ok ==>
                  && t' == t.(installed := t'.installed, nextInstalled := t.nextInstalled + 1)
                  && t'.installed.Keys == t.installed.Keys + {t.nextInstalled}
                  && (forall r | r in t.installed :: t'.installed[r] == t.installed[r])
                  && var row := t'.installed[t.nextInstalled];
                     && row.binary == b && row.versionId == versionId && Some(row.text) == Normalize(text)
                     && row.blake3 == blake3 && row.sha256 == sha256 && row.size == size && !row.current)
  {
  }

  /** Changing the current version succeeds exactly for a version the binary has a row of; the record then names it with
      the given text, of the binary's rows exactly that version's are current, and nothing else changes. */
  lemma UpdateCurrentIs(t: Tables, b: BinaryId, versionId: string, text: string)
    ensures var (ok, t') := UpdateCurrent(t, b, versionId, text);
            && (ok <==> b in t.binaries
                        && exists r | r in t.installed ::
                             t.installed[r].binary == b && t.installed[r].versionId == versionId)
            && (!ok ==> t' == t)
            && (ok ==>
                  && t' == t.(binaries := t'.binaries, installed := t'.installed)
                  && t'.binaries
                     == t.binaries[b := t.binaries[b].(currentId := Some(versionId), currentText := Some(text))]
                  && t'.installed.Keys == t.installed.Keys
                  && forall r | r in t.installed ::
                       && t'.installed[r].(current := t.installed[r].current) == t.installed[r]
                       && t'.installed[r].current
                          == if t.installed[r].binary == b then t.installed[r].versionId == versionId
                             else t.installed[r].current)
  {
  }

  /** Deleting succeeds exactly for a registered binary; then no record, installed row or backup row of it is left, and
      every other record and row is as before. */
  lemma DeleteIs(t: Tables, b: BinaryId)
    ensures var (ok, t') := Delete(t, b);
            && (ok <==> b in t.binaries) && (!ok ==> t' == t)
            && (ok ==>
                  && t' == t.(binaries := t'.binaries, installed := t'.installed, backups := t'.backups)
                  && b !in t'.binaries && t'.binaries.Keys == t.binaries.Keys - {b}
                  && (forall a | a in t'.binaries :: t'.binaries[a] == t.binaries[a])
                  && (forall r | r in t'.installed :: r in t.installed && t'.installed[r] == t.installed[r])
                  && (forall r | r in t.installed :: r in t'.installed <==> t.installed[r].binary != b)
                  && (forall r | r in t'.backups :: r in t.backups && t'.backups[r] == t.backups[r])
                  && (forall r | r in t.backups :: r in t'.backups <==> t.backups[r].binary != b))
  {
  }

  /** A deleted binary can be registered again under its id and name, and then starts without versions and backups. */
  lemma DeletedCanReturn(t: Tables, b: BinaryId, platform: string, path: string, key: seq<u8>)
    requires Consistent(t) && b in t.binaries
    ensures var gone := Delete(t, b).1;
            var (ok, back) := Register(gone, b, t.binaries[b].name, platform, path, key);
            && ok && (forall r | r in back.installed :: back.installed[r].binary != b)
            && (forall r | r in back.backups :: back.backups[r].binary != b)
            && forall versionId :: !HasVersion(back, b, versionId)
  {
    DeleteIs(t, b);
    RegisterIs(Delete(t, b).1, b, t.binaries[b].name, platform, path, key);
  }

  /** A backup is recorded exactly for a 32-byte hash, an acceptable text and a registered binary; the new row holds
      what was given, and nothing else changes. */
  lemma CreateBackupIs(t: Tables, b: BinaryId, versionId: string, text: string, path: string, hash: seq<u8>, size: int,
                       expires: Option<string>)
    requires t.nextBackup !in t.backups
    ensures var (ok, t') := CreateBackup(t, b, versionId, text, path, hash, size, expires);
            && (ok <==> |hash| == 32 && Normalize(text).Some? && b in t.binaries) && (!ok ==> t' == t)
            && (ok ==>
                  && t' == t.(backups := t'.backups, nextBackup := t.nextBackup + 1)
                  && t'.backups.Keys == t.backups.Keys + {t.nextBackup}
                  && (forall r | r in t.backups :: t'.backups[r] == t.backups[r])
                  && var row := t'.backups[t.nextBackup];
                     && row.binary == b && row.versionId == versionId && Some(row.text) == Normalize(text)
                     && row.path == path && row.hash == hash && row.size == size && row.expires == expires)
  {
  }

  /* Every operation keeps the tables consistent */

  lemma RegisterKeeps(t: Tables, b: BinaryId, name: string, platform: string, path: string, key: seq<u8>)
    requires Consistent(t)
    ensures Consistent(Register(t, b, name, platform, path, key).1)
  {
  }

  lemma RecordInstalledKeeps(t: Tables, b: BinaryId, versionId: string, text: string, blake3: seq<u8>, sha256: seq<u8>,
                             size: int)
    requires Consistent(t)
    ensures Consistent(RecordInstalled(t, b, versionId, text, blake3, sha256, size).1)
  {
    var t' := RecordInstalled(t, b, versionId, text, blake3, sha256, size).1;
    if t' != t {
      assert t.nextInstalled !in t.installed;
      forall a | a in t'.binaries && t'.binaries[a].currentId.Some? ensures exists r :: IsCurrent(t'.installed, a, r) {
        var r :| IsCurrent(t.installed, a, r);
        assert IsCurrent(t'.installed, a, r);
      }
    }
  }

  lemma UpdateCurrentKeeps(t: Tables, b: BinaryId, versionId: string, text: string)
    requires Consistent(t)
    ensures Consistent(UpdateCurrent(t, b, versionId, text).1)
  {
    var t' := UpdateCurrent(t, b, versionId, text).1;
    if b in t.binaries && HasVersion(t, b, versionId) {
      SetAfterClear(t, b, versionId);
      PointKeepsNames(t.binaries, b, Some(versionId), Some(text));
      MarkKeepsUnique(t.installed, b, versionId);
      MarkKeepsNamed(t, b, versionId, text);
    }
  }

  lemma MarkKeepsNamed(t: Tables, b: BinaryId, versionId: string, text: string)
    requires CurrentNamed(t) && b in t.binaries && HasVersion(t, b, versionId)
    ensures CurrentNamed(UpdateCurrent(t, b, versionId, text).1)
  {
    var t' := UpdateCurrent(t, b, versionId, text).1;
    forall a | a in t'.binaries && t'.binaries[a].currentId.Some? ensures exists r :: IsCurrent(t'.installed, a, r) {
      if a == b {
        var r :| r in t.installed && t.installed[r].binary == b && t.installed[r].versionId == versionId;
        assert IsCurrent(t'.installed, b, r);
      } else {
        var r :| IsCurrent(t.installed, a, r);
        assert IsCurrent(t'.installed, a, r);
      }
    }
  }

  lemma PointKeepsNames(binaries: map<BinaryId, Binary>, b: BinaryId, id: Option<string>, text: Option<string>)
    requires NamesUnique(binaries) && b in binaries
    ensures NamesUnique(binaries[b := binaries[b].(currentId := id, currentText := text)])
  {
  }

  lemma MarkKeepsUnique(installed: map<RowId, Installed>, b: BinaryId, versionId: string)
    requires VersionsUnique(installed)
    ensures VersionsUnique(MarkCurrent(installed, b, versionId))
  {
  }

  lemma DeleteKeeps(t: Tables, b: BinaryId)
    requires Consistent(t)
    ensures Consistent(Delete(t, b).1)
  {
    var t' := Delete(t, b).1;
    forall a | a in t'.binaries && t'.binaries[a].currentId.Some? ensures exists r :: IsCurrent(t'.installed, a, r) {
      var r :| IsCurrent(t.installed, a, r);
      assert IsCurrent(t'.installed, a, r);
    }
  }

  lemma CreateBackupKeeps(t: Tables, b: BinaryId, versionId: string, text: string, path: string, hash: seq<u8>,
                          size: int, expires: Option<string>)
    requires Consistent(t)
    ensures Consistent(CreateBackup(t, b, versionId, text, path, hash, size, expires).1)
  {
  }

  /** In consistent tables the current row of a binary is unique and is the one its record names. */
  lemma CurrentRow(t: Tables, b: BinaryId)
    requires Consistent(t) && b in t.binaries
    ensures t.binaries[b].currentId.Some? <==> exists r :: IsCurrent(t.installed, b, r)
    ensures forall r, q | IsCurrent(t.installed, b, r) && IsCurrent(t.installed, b, q) :: r == q
    ensures forall r | IsCurrent(t.installed, b, r) :: t.binaries[b].currentId == Some(t.installed[r].versionId)
  {
  }

  /* Whole runs */

  datatype Op =
    | RegisterOp(b: BinaryId, name: string, platform: string, path: string, key: seq<u8>, known: bool)
    | RecordOp(b: BinaryId, versionId: string, text: string, blake3: seq<u8>, sha256: seq<u8>, size: int)
    | UpdateOp(b: BinaryId, versionId: string, text: string)
    | DeleteOp(b: BinaryId)
    | BackupOp(b: BinaryId, versionId: string, text: string, path: string, hash: seq<u8>, size: int,
               expires: Option<string>)
    | DropBackupsOp(rows: set<RowId>)

  function After(t: Tables, op: Op): Tables {
    match op
    case RegisterOp(b, name, platform, path, key, known) =>
      if known then Register(t, b, name, platform, path, key).1 else t
    case RecordOp(b, versionId, text, blake3, sha256, size) =>
      RecordInstalled(t, b, versionId, text, blake3, sha256, size).1
    case UpdateOp(b, versionId, text) => UpdateCurrent(t, b, versionId, text).1
    case DeleteOp(b) => Delete(t, b).1
    case BackupOp(b, versionId, text, path, hash, size, expires) =>
      CreateBackup(t, b, versionId, text, path, hash, size, expires).1
    case DropBackupsOp(rows) => t.(backups := t.backups - rows)
  }

  function Run(t: Tables, ops: seq<Op>): Tables
    decreases |ops|
  {
    if ops == [] then t else Run(After(t, ops[0]), ops[1..])
  }

  /** A run of the program's own operations, none of which the database fails to run. */
  method Serve(db: Database, ops: seq<Op>)
    requires db.Valid()
    modifies db
    ensures db.Valid() && db.tables == Run(old(db.tables), ops)
  {
    for n := 0 to |ops|
      invariant db.Valid() && Run(db.tables, ops[n..]) == Run(old(db.tables), ops)
    {
      assert ops[n..][0] == ops[n] && ops[n..][1..] == ops[n + 1..];
      match ops[n]
      case RegisterOp(b, name, platform, path, key, known) =>
        var _ := db.RegisterBinary(b, name, platform, path, key, known, NoTrouble);
      case RecordOp(b, versionId, text, blake3, sha256, size) =>
        var _ := db.RecordInstalledVersion(b, versionId, text, blake3, sha256, size, NoTrouble);
      case UpdateOp(b, versionId, text) =>
        var _ := db.UpdateCurrentVersion(b, versionId, text, NoTrouble);
      case DeleteOp(b) =>
        var _ := db.DeleteManagedBinary(b, NoTrouble);
      case BackupOp(b, versionId, text, path, hash, size, expires) =>
        var _ := db.RecordBackup(b, versionId, text, path, hash, size, expires, true, NoTrouble);
      case DropBackupsOp(rows) =>
        db.DeleteBackups(rows);
    }
  }

  /** Every reachable database is consistent. */
  lemma {:induction false} RunKeepsConsistent(t: Tables, ops: seq<Op>)
    requires Consistent(t)
    ensures Consistent(Run(t, ops))
    decreases |ops|
  {
    if ops != [] {
      AfterKeeps(t, ops[0]);
      RunKeepsConsistent(After(t, ops[0]), ops[1..]);
    }
  }

  lemma AfterKeeps(t: Tables, op: Op)
    requires Consistent(t)
    ensures Consistent(After(t, op))
  {
    match op
    case RegisterOp(b, name, platform, path, key, _) => RegisterKeeps(t, b, name, platform, path, key);
    case RecordOp(b, versionId, text, blake3, sha256, size) =>
      RecordInstalledKeeps(t, b, versionId, text, blake3, sha256, size);
    case UpdateOp(b, versionId, text) => UpdateCurrentKeeps(t, b, versionId, text);
    case DeleteOp(b) => DeleteKeeps(t, b);
    case BackupOp(b, versionId, text, path, hash, size, expires) =>
      CreateBackupKeeps(t, b, versionId, text, path, hash, size, expires);
    case DropBackupsOp(rows) =>
  }

  lemma ReachableIsConsistent(ops: seq<Op>)
    ensures Consistent(Run(EMPTY, ops))
  {
    RunKeepsConsistent(EMPTY, ops);
  }
}
