/** Mounts: where they may be put, which of them serves a request, and what storage they own. */
module Mounts {
  import opened Wrappers
  import opened Like
  import Leases
  import Strings

  const SYSTEM_MOUNT_PATH := "sys/"
  const AUTH_PATH := "auth/"

  datatype BackendType = Kv | Postgres | System | Userpass

  predicate IsCredential(b: BackendType) {
    b.Userpass?
  }

  datatype MountEntry = MountEntry(path: string, variant: BackendType, config: Leases.MountConfig, namespaceId: string)

  // Keyed by mount id.
  type Rows = map<string, MountEntry>

  datatype Error =
    | InvalidMountType
    | MountPathConflict(existing: string)
    | AuthBackendNotUnderAuthPath
    | LogicalBackendUnderAuthPath
    | ConstraintFailed
    | BackendMigration
    | MountNotFound
    | InternalError
    | Unauthorized

  // ---------- The table ----------

  // The CHECK on paths.
  predicate ValidPath(path: string) {
    LowerAll(path) == path && path != "" && ' ' !in path
  }

  ghost predicate UniquePaths(rows: Rows) {
    forall a, b | a in rows && b in rows && rows[a].namespaceId == rows[b].namespaceId && rows[a].path == rows[b].path :: a == b
  }

  ghost predicate Checked(rows: Rows) {
    UniquePaths(rows) && forall id | id in rows :: ValidPath(rows[id].path)
  }

  predicate At(rows: Rows, id: string, path: string, ns: string) {
    id in rows && rows[id].namespaceId == ns && rows[id].path == path
  }

  predicate Candidate(rows: Rows, id: string, path: string, ns: string) {
    id in rows && rows[id].namespaceId == ns && Matches(rows[id].path + "%", path)
  }

  // The rows that the longest-prefix query may return first.
  ghost predicate Serves(rows: Rows, id: string, path: string, ns: string) {
    && Candidate(rows, id, path, ns)
    && forall other | Candidate(rows, other, path, ns) :: |rows[other].path| <= |rows[id].path|
  }

  // The mounts of a namespace in order of path.
  ghost predicate Listed(rows: Rows, ids: seq<string>, ns: string) {
    && (forall id :: id in ids <==> id in rows && rows[id].namespaceId == ns)
    && forall i, j | 0 <= i < j < |ids| :: ids[i] in rows && ids[j] in rows && Strings.Less(rows[ids[i]].path, rows[ids[j]].path)
  }

  // The first of some mounts with different paths.
  method FirstByPath(rows: Rows, ids: set<string>) returns (first: string)
    requires ids != {} && ids <= rows.Keys
    requires forall a, b | a in ids && b in ids && rows[a].path == rows[b].path :: a == b
    ensures first in ids && forall id | id in ids && id != first :: Strings.Less(rows[first].path, rows[id].path)
  {
    first :| first in ids;
    var rest := ids - {first};
    while rest != {}
      invariant rest <= ids && first in ids && first !in rest
      invariant forall id | id in ids - rest && id != first :: Strings.Less(rows[first].path, rows[id].path)
      decreases rest
    {
      var next :| next in rest;
      Strings.LessIsTotal(rows[first].path, rows[next].path);
      rest := rest - {next};
      if Strings.Less(rows[next].path, rows[first].path) {
        forall id | id in ids - rest && id != next ensures Strings.Less(rows[next].path, rows[id].path) {
          if id != first { Strings.LessIsTransitive(rows[next].path, rows[first].path, rows[id].path); }
        }
        first := next;
      }
    }
  }

  class MountRepo {
    var rows: Rows

    constructor ()
      ensures rows == map[]
    {
      rows := map[];
    }

    method Create(id: string, entry: MountEntry, namespaceExists: bool) returns (ok: bool)
      modifies this
      ensures ok <==>
        id !in old(rows) && namespaceExists && ValidPath(entry.path)
        && !exists other :: At(old(rows), other, entry.path, entry.namespaceId)
      ensures rows == if ok then old(rows)[id := entry] else old(rows)
    {
      ok := id !in rows && namespaceExists && ValidPath(entry.path)
        && !exists other | other in rows :: At(rows, other, entry.path, entry.namespaceId);
      if ok {
        rows := rows[id := entry];
      }
    }

    method GetByPath(path: string, ns: string) returns (r: Option<string>)
      ensures r.None? ==> !exists id :: At(rows, id, path, ns)
      ensures r.Some? ==> At(rows, r.value, path, ns)
    {
      if id :| id in rows && At(rows, id, path, ns) {
        r := Some(id);
      } else {
        r := None;
      }
    }

    method SetConfig(path: string, ns: string, config: Leases.MountConfig) returns (ok: bool)
      requires UniquePaths(rows)
      modifies this
      ensures WellMounted(old(rows)) ==> WellMounted(rows)
      ensures ok <==> exists id :: At(old(rows), id, path, ns)
      ensures rows == Reconfigured(old(rows), path, ns, config)
    {
      var r := GetByPath(path, ns);
      ok := r.Some?;
      if ok {
        rows := rows[r.value := rows[r.value].(config := config)];
      }
    }

    method LongestPrefix(path: string, ns: string) returns (r: Option<string>)
      ensures r.None? ==> !exists id :: Candidate(rows, id, path, ns)
      ensures r.Some? ==> Serves(rows, r.value, path, ns)
    {
      r := None;
      var rest := set id | id in rows && Candidate(rows, id, path, ns);
      ghost var all := rest;
      while rest != {}
        invariant rest <= all
        invariant r.None? ==> rest == all
        invariant r.Some? ==> r.value in all && forall id | id in all - rest :: |rows[id].path| <= |rows[r.value].path|
        decreases rest
      {
        var id :| id in rest;
        if r.None? || |rows[r.value].path| < |rows[id].path| {
          r := Some(id);
        }
        rest := rest - {id};
      }
      assert forall id | Candidate(rows, id, path, ns) :: id in all;
    }

    method List(ns: string) returns (ids: seq<string>)
      requires UniquePaths(rows)
      ensures Listed(rows, ids, ns)
    {
      ids := [];
      var rest := set id | id in rows && rows[id].namespaceId == ns;
      while rest != {}
        invariant forall id :: id in rows && rows[id].namespaceId == ns <==> id in ids || id in rest
        invariant forall i | 0 <= i < |ids| :: ids[i] in rows && forall id | id in rest :: Strings.Less(rows[ids[i]].path, rows[id].path)
        invariant forall i, j | 0 <= i < j < |ids| :: Strings.Less(rows[ids[i]].path, rows[ids[j]].path)
        decreases rest
      {
        var id := FirstByPath(rows, rest);
        rest := rest - {id};
        ids := ids + [id];
      }
    }

    method RemoveByPath(path: string, ns: string) returns (ok: bool)
      requires UniquePaths(rows)
      modifies this
      ensures ok <==> exists id :: At(old(rows), id, path, ns)
      ensures rows == map id | id in old(rows) && !At(old(rows), id, path, ns) :: old(rows)[id]
    {
      var r := GetByPath(path, ns);
      ok := r.Some?;
      if ok {
        rows := rows - {r.value};
      }
    }
  }

  // ---------- Routing ----------

  predicate StartsWith(s: string, prefix: string) {
    prefix <= s
  }

  // The part of the path that the backend sees. It is cut off only if the mount path is a
  // prefix to the letter, which the longest-prefix query does not ask for.
  function Advanced(path: string, prefix: string): string {
    if prefix <= path then path[|prefix|..] else path
  }

  datatype Target = SystemBackend | MountBackend(id: string)

  function Answer(rows: Rows, backends: set<string>, id: string, path: string): Result<(Target, string), Error>
    requires id in rows
  {
    if id in backends then Ok((MountBackend(id), Advanced(path, rows[id].path))) else Err(InternalError)
  }

  class Router {
    const mountRepo: MountRepo
    var backends: set<string>
    var hasSystem: bool

    constructor (mountRepo: MountRepo)
      ensures this.mountRepo == mountRepo && backends == {} && !hasSystem
    {
      this.mountRepo := mountRepo;
      backends := {};
      hasSystem := false;
    }

    method Route(path: string, ns: Option<string>) returns (r: Result<(Target, string), Error>)
      ensures StartsWith(path, SYSTEM_MOUNT_PATH) ==>
        r == if hasSystem then Ok((SystemBackend, path[4..])) else Err(InternalError)
      ensures !StartsWith(path, SYSTEM_MOUNT_PATH) && ns.None? ==> r == Err(Unauthorized)
      ensures !StartsWith(path, SYSTEM_MOUNT_PATH) && ns.Some? ==>
        if forall id :: !Candidate(mountRepo.rows, id, path, ns.value) then r == Err(MountNotFound)
        else exists id :: Serves(mountRepo.rows, id, path, ns.value) && r == Answer(mountRepo.rows, backends, id, path)
      // What is handed on is what follows the mount path, where that begins the request path.
      ensures r.Ok? && r.value.0.SystemBackend? ==> hasSystem && SYSTEM_MOUNT_PATH + r.value.1 == path
      ensures r.Ok? && r.value.0.MountBackend? ==>
        var id := r.value.0.id;
        && ns.Some? && Serves(mountRepo.rows, id, path, ns.value) && id in backends
        && if mountRepo.rows[id].path <= path then mountRepo.rows[id].path + r.value.1 == path else r.value.1 == path
      ensures r == Err(InternalError) && !StartsWith(path, SYSTEM_MOUNT_PATH) ==>
        ns.Some? && exists id :: Serves(mountRepo.rows, id, path, ns.value) && id !in backends
    {
      if StartsWith(path, SYSTEM_MOUNT_PATH) {
        if !hasSystem { return Err(InternalError); }
        return Ok((SystemBackend, Advanced(path, SYSTEM_MOUNT_PATH)));
      }
      if ns.None? { return Err(Unauthorized); }
      var m := mountRepo.LongestPrefix(path, ns.value);
      if m.None? { return Err(MountNotFound); }
      if m.value !in backends { return Err(InternalError); }
      r := Ok((MountBackend(m.value), Advanced(path, mountRepo.rows[m.value].path)));
    }

    method Mount(id: string)
      modifies this`backends
      ensures backends == old(backends) + {id}
    {
      backends := backends + {id};
    }

    method Remove(id: string) returns (found: bool)
      modifies this`backends
      ensures found == (id in old(backends))
      ensures backends == old(backends) - {id}
    {
      found := id in backends;
      backends := backends - {id};
    }
  }

  // ---------- Mounting ----------

  predicate ClashesWithSystem(path: string) {
    StartsWith(path, SYSTEM_MOUNT_PATH) || StartsWith(SYSTEM_MOUNT_PATH, path)
  }

  // What `mount` checks before it touches anything.
  ghost predicate Admissible(rows: Rows, path: string, ns: string, variant: BackendType) {
    && !variant.System?
    && !ClashesWithSystem(path)
    && (forall id :: !Candidate(rows, id, path, ns))
    && IsCredential(variant) == StartsWith(path, AUTH_PATH)
  }

  // Every stored mount was admissible once.
  ghost predicate WellMounted(rows: Rows) {
    && Checked(rows)
    && forall id | id in rows ::
         && !rows[id].variant.System?
         && !ClashesWithSystem(rows[id].path)
         && IsCredential(rows[id].variant) == StartsWith(rows[id].path, AUTH_PATH)
  }

  // ---------- Storage ----------

  predicate IsHex(c: char) {
    '0' <= c <= '9' || 'a' <= c <= 'f'
  }

  // A UUID in its simple form.
  predicate IsUuid(s: string) {
    |s| == 32 && forall i | 0 <= i < 32 :: IsHex(s[i])
  }

  function VariantName(b: BackendType): string {
    match b
    case Kv => "kv"
    case Postgres => "psql"
    case System => "system"
    case Userpass => "userpass"
  }

  datatype Owner = Owner(ns: string, variant: BackendType, id: string)

  predicate ValidOwner(o: Owner) {
    IsUuid(o.ns) && IsUuid(o.id)
  }

  // The prefix of all tables of a mount.
  function StoragePrefix(o: Owner): string {
    "covert_" + o.ns + "_" + VariantName(o.variant) + "_" + o.id + "_"
  }

  lemma PrefixChars(o: Owner)
    requires ValidOwner(o)
    ensures
      var p := StoragePrefix(o);
      var n := |VariantName(o.variant)|;
      && |p| == 74 + n
      && p[..7] == "covert_" && p[7..39] == o.ns && p[39] == '_'
      && p[40..40 + n] == VariantName(o.variant) && p[40 + n] == '_'
      && p[41 + n..73 + n] == o.id && p[73 + n] == '_'
  {}

  lemma AgreeAt(o: Owner, name: string, i: nat)
    requires ValidOwner(o) && Matches(StoragePrefix(o) + "%", name)
    requires i < |StoragePrefix(o)|
    ensures i < |name| && MatchesChar(StoragePrefix(o)[i], name[i])
  {
    NoPercent(o);
    MatchesPrefix(StoragePrefix(o), name);
  }

  lemma SameHex(a: char, b: char)
    requires IsHex(a) && IsHex(b) && MatchesChar(a, b)
    ensures a == b
  {}

  lemma LookupFixesNamespace(o: Owner, other: Owner, name: string)
    requires ValidOwner(o) && ValidOwner(other) && StoragePrefix(other) <= name
    requires Matches(StoragePrefix(o) + "%", name)
    ensures o.ns == other.ns
  {
    var p, q := StoragePrefix(o), StoragePrefix(other);
    PrefixChars(o);
    PrefixChars(other);
    forall i | 0 <= i < 32 ensures o.ns[i] == other.ns[i] {
      assert p[7..39][i] == p[7 + i] && q[7..39][i] == q[7 + i] && name[7 + i] == q[7 + i];
      AgreeAt(o, name, 7 + i);
      SameHex(o.ns[i], other.ns[i]);
    }
  }

  lemma LookupFixesVariant(o: Owner, other: Owner, name: string)
    requires ValidOwner(o) && ValidOwner(other) && StoragePrefix(other) <= name
    requires Matches(StoragePrefix(o) + "%", name)
    ensures o.variant == other.variant
  {
    var p, q := StoragePrefix(o), StoragePrefix(other);
    var v, w := VariantName(o.variant), VariantName(other.variant);
    PrefixChars(o);
    PrefixChars(other);
    assert p[40..40 + |v|][0] == p[40] && q[40..40 + |w|][0] == q[40] && name[40] == q[40];
    AgreeAt(o, name, 40);
    assert v[0] == p[40] && w[0] == q[40];
  }

  lemma LookupFixesId(o: Owner, other: Owner, name: string)
    requires ValidOwner(o) && ValidOwner(other) && StoragePrefix(other) <= name
    requires Matches(StoragePrefix(o) + "%", name) && o.variant == other.variant
    ensures o.id == other.id
  {
    var p, q := StoragePrefix(o), StoragePrefix(other);
    var at := 41 + |VariantName(o.variant)|;
    PrefixChars(o);
    PrefixChars(other);
    forall i | 0 <= i < 32 ensures o.id[i] == other.id[i] {
      assert p[at..at + 32][i] == p[at + i] && q[at..at + 32][i] == q[at + i] && name[at + i] == q[at + i];
      AgreeAt(o, name, at + i);
      SameHex(o.id[i], other.id[i]);
    }
  }

  // Of all names that begin with the prefix of some mount, the pattern that `remove_mount`
  // looks tables up with selects just those of its own mount, although each `_` in it
  // stands for any character and LIKE does not tell cases apart.
  lemma LookupSelectsOwnTables(o: Owner, other: Owner, name: string)
    requires ValidOwner(o) && ValidOwner(other) && StoragePrefix(other) <= name
    ensures Matches(StoragePrefix(o) + "%", name) <==> o == other
  {
    var p := StoragePrefix(o);
    if o == other {
      NoPercent(o);
      MatchesPrefix(p, name);
      assert forall i | 0 <= i < |p| :: name[i] == p[i];
    } else if Matches(p + "%", name) {
      LookupFixesNamespace(o, other, name);
      LookupFixesVariant(o, other, name);
      LookupFixesId(o, other, name);
      assert false;
    }
  }

  lemma NoPercent(o: Owner)
    requires ValidOwner(o)
    ensures '%' !in StoragePrefix(o)
  {
    assert '%' !in o.ns && '%' !in o.id;
    assert '%' !in VariantName(o.variant);
  }

  // No prefix is a prefix of another.
  lemma PrefixFree(o: Owner, other: Owner)
    requires ValidOwner(o) && ValidOwner(other) && StoragePrefix(o) <= StoragePrefix(other)
    ensures o == other
  {
    var p, q := StoragePrefix(o), StoragePrefix(other);
    LookupSelectsOwnTables(o, other, q);
    NoPercent(o);
    MatchesPrefix(p, q);
    assert forall i | 0 <= i < |p| :: p[i] == q[i];
  }

  // Tables of the server itself do not begin with `covert`.
  predicate IsServerTable(name: string) {
    !(LowerAll("covert") <= LowerAll(name))
  }

  // What the lookup of a mount's tables selects begins like the prefix of a storage.
  lemma SelectedBeginsWithCovert(o: Owner, name: string)
    requires ValidOwner(o) && Matches(StoragePrefix(o) + "%", name)
    ensures LowerAll("covert") <= LowerAll(name)
  {
    var p := StoragePrefix(o);
    PrefixChars(o);
    NoPercent(o);
    MatchesPrefix(p, name);
    forall i | 0 <= i < 6 ensures LowerAll("covert")[i] == LowerAll(name)[i] {
      assert p[..7][i] == p[i];
      assert MatchesChar(p[i], name[i]);
    }
  }

  lemma LookupSparesServerTables(o: Owner, name: string)
    requires ValidOwner(o) && IsServerTable(name)
    ensures !Matches(StoragePrefix(o) + "%", name)
  {
    if Matches(StoragePrefix(o) + "%", name) { SelectedBeginsWithCovert(o, name); }
  }

  // What the database holds: the server's own tables, and tables of mounts.
  ghost predicate Owned(name: string, o: Owner) {
    ValidOwner(o) && StoragePrefix(o) <= name
  }

  ghost predicate KnownTables(tables: set<string>) {
    forall name | name in tables :: IsServerTable(name) || exists o :: Owned(name, o)
  }

  function Selected(tables: set<string>, prefix: string): set<string> {
    set name | name in tables && Matches(prefix + "%", name)
  }

  lemma SelectedAreOwn(tables: set<string>, o: Owner)
    requires KnownTables(tables) && ValidOwner(o)
    ensures Selected(tables, StoragePrefix(o)) == set name | name in tables && StoragePrefix(o) <= name
  {
    forall name | name in tables ensures Matches(StoragePrefix(o) + "%", name) <==> StoragePrefix(o) <= name {
      if StoragePrefix(o) <= name {
        LookupSelectsOwnTables(o, o, name);
      } else if IsServerTable(name) {
        LookupSparesServerTables(o, name);
      } else {
        var other :| Owned(name, other);
        LookupSelectsOwnTables(o, other, name);
      }
    }
  }

  // ---------- Mounting and unmounting ----------

  function OwnerOf(id: string, m: MountEntry): Owner {
    Owner(m.namespaceId, m.variant, id)
  }

  // The tables that the lookup for a mount's prefix selects.
  function TablesOf(tables: set<string>, rows: Rows, id: string): set<string>
    requires id in rows
  {
    Selected(tables, StoragePrefix(OwnerOf(id, rows[id])))
  }

  // A mount whose backend is not in the router.
  predicate Unrouted(rows: Rows, backends: set<string>, id: string) {
    id in rows && id !in backends
  }

  predicate Removable(rows: Rows, backends: set<string>, id: string, path: string, ns: string) {
    At(rows, id, path, ns) && !rows[id].variant.System? && id in backends
  }

  // What the handlers work on: the rows, and the backends that are in the router.
  datatype MountState = MountState(rows: Rows, backends: set<string>)

  // The backend of a mount that passes the checks stays in the router even if a constraint
  // refuses its row.
  ghost function AfterMount(s: MountState, id: string, m: MountEntry, namespaceExists: bool): MountState {
    if !Admissible(s.rows, m.path, m.namespaceId, m.variant) then s
    else MountState(if namespaceExists && ValidPath(m.path) then s.rows[id := m] else s.rows, s.backends + {id})
  }

  // A lease that is left stops the deletion of the row, when the backend is gone already.
  function AfterRemove(s: MountState, path: string, ns: string, leasesLeft: bool): MountState {
    var removed := set id | id in s.rows && Removable(s.rows, s.backends, id, path, ns);
    MountState(if leasesLeft then s.rows else s.rows - removed, s.backends - removed)
  }

  // The mount at a path is the only one that its removal concerns.
  lemma RemoveIsAt(s: MountState, id: string, path: string, ns: string, leasesLeft: bool)
    requires UniquePaths(s.rows) && At(s.rows, id, path, ns)
    ensures (exists i :: Removable(s.rows, s.backends, i, path, ns)) <==> Removable(s.rows, s.backends, id, path, ns)
    ensures AfterRemove(s, path, ns, leasesLeft) ==
      if Removable(s.rows, s.backends, id, path, ns)
      then MountState(if leasesLeft then s.rows else s.rows - {id}, s.backends - {id}) else s
  {
    assert forall i | At(s.rows, i, path, ns) :: i == id;
    var removed := set i | i in s.rows && Removable(s.rows, s.backends, i, path, ns);
    assert removed == if Removable(s.rows, s.backends, id, path, ns) then {id} else {};
    assert s.rows - {} == s.rows && s.backends - {} == s.backends;
  }

  lemma RemoveIsNowhere(s: MountState, path: string, ns: string, leasesLeft: bool)
    requires !exists id :: At(s.rows, id, path, ns)
    ensures !exists i :: Removable(s.rows, s.backends, i, path, ns)
    ensures AfterRemove(s, path, ns, leasesLeft) == s
  {
    assert forall i :: !At(s.rows, i, path, ns);
    assert (set i | i in s.rows && Removable(s.rows, s.backends, i, path, ns)) == {};
    assert s.rows - {} == s.rows && s.backends - {} == s.backends;
  }

  lemma RowRemoved(rows: Rows, rows': Rows, id: string, path: string, ns: string)
    requires UniquePaths(rows) && At(rows, id, path, ns)
    requires rows' == map i | i in rows && !At(rows, i, path, ns) :: rows[i]
    ensures rows' == rows - {id}
    ensures WellMounted(rows) ==> WellMounted(rows')
  {
    assert forall i | At(rows, i, path, ns) :: i == id;
  }

  function Reconfigured(rows: Rows, path: string, ns: string, config: Leases.MountConfig): Rows {
    map id | id in rows :: if At(rows, id, path, ns) then rows[id].(config := config) else rows[id]
  }

  function AfterUpdate(s: MountState, path: string, ns: string, config: Leases.MountConfig): MountState {
    s.(rows := Reconfigured(s.rows, path, ns, config))
  }

  class Context {
    const mountRepo: MountRepo
    const router: Router
    var tables: set<string>

    constructor (mountRepo: MountRepo, router: Router)
      ensures this.mountRepo == mountRepo && this.router == router && tables == {}
    {
      this.mountRepo := mountRepo;
      this.router := router;
      tables := {};
    }

    function Now(): MountState
      reads mountRepo, router
    {
      MountState(mountRepo.rows, router.backends)
    }

    // `id` is fresh. The backend stays in the router even if the row cannot be stored.
    method Mount(id: string, path: string, ns: string, variant: BackendType, config: Leases.MountConfig,
                 namespaceExists: bool, migrates: bool)
      returns (r: Result<string, Error>)
      requires WellMounted(mountRepo.rows) && id !in mountRepo.rows
      modifies mountRepo, router
      ensures WellMounted(mountRepo.rows)
      ensures Now() == AfterMount(old(Now()), id, MountEntry(path, variant, config, ns), namespaceExists)
      ensures r.Ok? ==> r.value == id && migrates
      ensures r.Ok? || r == Err(BackendMigration) <==>
        Admissible(old(mountRepo.rows), path, ns, variant) && namespaceExists && ValidPath(path)
      ensures mountRepo.rows == if r.Ok? || r == Err(BackendMigration)
        then old(mountRepo.rows)[id := MountEntry(path, variant, config, ns)] else old(mountRepo.rows)
      ensures router.backends == old(router.backends) +
        if Admissible(old(mountRepo.rows), path, ns, variant) then {id} else {}
      // Which check refuses what, in the order of the checks.
      ensures r == Err(InvalidMountType) <==> variant.System?
      ensures r.Err? && r.error.MountPathConflict? <==>
        && !variant.System?
        && (|| SYSTEM_MOUNT_PATH <= path || path <= SYSTEM_MOUNT_PATH
            || exists other :: Candidate(old(mountRepo.rows), other, path, ns))
      ensures !variant.System? && !(r.Err? && r.error.MountPathConflict?) ==>
        && (r == Err(AuthBackendNotUnderAuthPath) <==> variant.Userpass? && !(AUTH_PATH <= path))
        && (r == Err(LogicalBackendUnderAuthPath) <==> !variant.Userpass? && AUTH_PATH <= path)
        && (variant.Userpass? == (AUTH_PATH <= path) ==>
              if !namespaceExists || LowerAll(path) != path || path == "" || ' ' in path then r == Err(ConstraintFailed)
              else r == if migrates then Ok(id) else Err(BackendMigration))
    {
      if variant == System {
        return Err(InvalidMountType);
      }
      if StartsWith(path, SYSTEM_MOUNT_PATH) || StartsWith(SYSTEM_MOUNT_PATH, path) {
        return Err(MountPathConflict(SYSTEM_MOUNT_PATH));
      }
      var existing := mountRepo.LongestPrefix(path, ns);
      if existing.Some? {
        assert Candidate(mountRepo.rows, existing.value, path, ns);
        return Err(MountPathConflict(mountRepo.rows[existing.value].path));
      }
      if IsCredential(variant) != StartsWith(path, AUTH_PATH) {
        return Err(if IsCredential(variant) then AuthBackendNotUnderAuthPath else LogicalBackendUnderAuthPath);
      }
      router.Mount(id);
      ghost var before := mountRepo.rows;
      var ok := mountRepo.Create(id, MountEntry(path, variant, config, ns), namespaceExists);
      NotAtIfNotCandidate(before, path, ns);
      if ok { WellMountedGrows(before, id, MountEntry(path, variant, config, ns)); }
      if !ok {
        return Err(ConstraintFailed);
      }
      if !migrates {
        return Err(BackendMigration);
      }
      r := Ok(id);
    }

    // `leasesLeft` tells whether a lease of the mount has survived the revocations; its
    // foreign key then forbids the deletion of the row.
    method RemoveMount(path: string, ns: string, leasesLeft: bool) returns (r: Result<string, Error>)
      requires UniquePaths(mountRepo.rows)
      modifies this, mountRepo, router
      ensures WellMounted(old(mountRepo.rows)) ==> WellMounted(mountRepo.rows)
      ensures r.Err? ==> mountRepo.rows == old(mountRepo.rows) && tables == old(tables)
      ensures r.Ok? <==> !leasesLeft && exists id :: Removable(old(mountRepo.rows), old(router.backends), id, path, ns)
      ensures r.Ok? ==>
        && At(old(mountRepo.rows), r.value, path, ns)
        && mountRepo.rows == old(mountRepo.rows) - {r.value}
        && tables == old(tables) - TablesOf(old(tables), old(mountRepo.rows), r.value)
      ensures r.Ok? ==> router.backends == old(router.backends) - {r.value}
      ensures Now() == AfterRemove(old(Now()), path, ns, leasesLeft)
      ensures r == Err(ConstraintFailed) <==>
        leasesLeft && exists id :: Removable(old(mountRepo.rows), old(router.backends), id, path, ns)
      ensures r.Err? && r != Err(ConstraintFailed) ==> router.backends == old(router.backends)
      ensures r == Err(ConstraintFailed) ==>
        exists id :: At(old(mountRepo.rows), id, path, ns) && router.backends == old(router.backends) - {id}
    {
      var found := mountRepo.GetByPath(path, ns);
      if found.None? {
        RemoveIsNowhere(Now(), path, ns, leasesLeft);
        return Err(MountNotFound);
      }
      var id := found.value;
      var m := mountRepo.rows[id];
      RemoveIsAt(Now(), id, path, ns, leasesLeft);
      if m.variant == System {
        return Err(InvalidMountType);
      }
      var routed := router.Remove(id);
      if !routed {
        return Err(MountNotFound);
      }
      if leasesLeft {
        return Err(ConstraintFailed);
      }
      var _ := mountRepo.RemoveByPath(path, ns);
      RowRemoved(old(mountRepo.rows), mountRepo.rows, id, path, ns);
      var prefix := StoragePrefix(OwnerOf(id, m));
      var dropped := Selected(tables, prefix);
      tables := tables - dropped;
      r := Ok(id);
    }

    method UpdateMount(path: string, ns: string, config: Leases.MountConfig) returns (r: Result<string, Error>)
      requires UniquePaths(mountRepo.rows)
      modifies mountRepo
      ensures WellMounted(old(mountRepo.rows)) ==> WellMounted(mountRepo.rows)
      ensures Now() == AfterUpdate(old(Now()), path, ns, config)
      ensures r.Ok? ==> At(mountRepo.rows, r.value, path, ns) && mountRepo.rows[r.value].config == config
      ensures r.Err? ==> r == Err(MountNotFound) && mountRepo.rows == old(mountRepo.rows)
      ensures r.Ok? <==> exists id :: At(old(mountRepo.rows), id, path, ns)
    {
      var found := mountRepo.GetByPath(path, ns);
      if found.None? {
        assert forall id :: !At(mountRepo.rows, id, path, ns);
        assert Reconfigured(mountRepo.rows, path, ns, config) == mountRepo.rows;
        return Err(MountNotFound);
      }
      var _ := mountRepo.SetConfig(path, ns, config);
      r := Ok(found.value);
    }
  }

  lemma WellMountedGrows(rows: Rows, id: string, m: MountEntry)
    requires WellMounted(rows) && id !in rows && Admissible(rows, m.path, m.namespaceId, m.variant) && ValidPath(m.path)
    ensures WellMounted(rows[id := m])
  {
    NotAtIfNotCandidate(rows, m.path, m.namespaceId);
    forall a | a in rows && rows[a].namespaceId == m.namespaceId ensures rows[a].path != m.path {
      assert !At(rows, a, m.path, m.namespaceId);
    }
  }

  lemma NotAtIfNotCandidate(rows: Rows, path: string, ns: string)
    requires forall id :: !Candidate(rows, id, path, ns)
    ensures !exists id :: At(rows, id, path, ns)
  {
    forall id ensures !At(rows, id, path, ns) {
      if At(rows, id, path, ns) {
        SelfMatch(path);
        assert Candidate(rows, id, path, ns);
      }
    }
  }

  // Every string matches itself as a pattern.
  lemma {:induction false} SelfMatch(s: string)
    ensures Matches(s + "%", s)
  {
    if s == "" {
      assert s + "%" == "%";
    } else {
      assert (s + "%")[1..] == s[1..] + "%";
      SelfMatch(s[1..]);
      if s[0] == '%' {
        SelfMatch(s[1..]);
        PercentSkips(s[1..] + "%", s[1..], s);
      }
    }
  }

  // After a `%`, a pattern that matches the rest of a string matches the string.
  lemma PercentSkips(pattern: string, rest: string, s: string)
    requires s != "" && rest == s[1..] && Matches(pattern, rest)
    ensures Matches("%" + pattern, s)
  {
    assert ("%" + pattern)[1..] == pattern;
    assert Matches("%" + pattern, rest);
  }

  // ---------- Routing is stable ----------

  predicate NoPercentIn(rows: Rows) {
    forall id | id in rows :: '%' !in rows[id].path
  }

  // The same rows may serve each request that some row served before.
  ghost predicate StableRouting(rows: Rows, rows': Rows, ns: string) {
    forall path, id | (exists served :: Serves(rows, served, path, ns)) ::
      Serves(rows', id, path, ns) <==> Serves(rows, id, path, ns)
  }

  lemma {:induction false} SomeServes(rows: Rows, path: string, ns: string, ids: set<string>, id: string) returns (best: string)
    requires id in ids && forall i | i in ids :: Candidate(rows, i, path, ns)
    requires ids <= rows.Keys
    ensures best in ids && forall i | i in ids :: |rows[i].path| <= |rows[best].path|
    decreases |ids|
  {
    var rest := ids - {id};
    if rest == {} {
      best := id;
      assert forall i | i in ids :: i == id || i in rest;
    } else {
      var other :| other in rest;
      best := SomeServes(rows, path, ns, rest, other);
      if |rows[best].path| < |rows[id].path| { best := id; }
    }
  }

  lemma CandidateServed(rows: Rows, path: string, ns: string, id: string)
    requires Candidate(rows, id, path, ns)
    ensures exists best :: Serves(rows, best, path, ns)
  {
    var ids := set i | i in rows && Candidate(rows, i, path, ns);
    var best := SomeServes(rows, path, ns, ids, id);
    assert forall i | Candidate(rows, i, path, ns) :: i in ids;
    assert Serves(rows, best, path, ns);
  }

  // A request that the new mount, too, may serve: it matches, and no mount that matches is
  // longer.
  ghost predicate TakesOver(rows: Rows, m: MountEntry, path: string) {
    && Matches(m.path + "%", path)
    && (exists e :: Candidate(rows, e, path, m.namespaceId))
    && forall e | Candidate(rows, e, path, m.namespaceId) :: |rows[e].path| <= |m.path|
  }

  lemma ServesWithNew(rows: Rows, id: string, m: MountEntry, path: string, i: string)
    requires id !in rows && !TakesOver(rows, m, path)
    requires exists served :: Serves(rows, served, path, m.namespaceId)
    ensures Serves(rows[id := m], i, path, m.namespaceId) <==> Serves(rows, i, path, m.namespaceId)
  {
    var rows', ns := rows[id := m], m.namespaceId;
    var served :| Serves(rows, served, path, ns);
    assert forall j | j in rows :: Candidate(rows', j, path, ns) <==> Candidate(rows, j, path, ns);
    assert Candidate(rows', served, path, ns);
    if Candidate(rows', id, path, ns) {
      var e :| Candidate(rows, e, path, ns) && |m.path| < |rows[e].path|;
      assert |m.path| < |rows[e].path| <= |rows[served].path|;
    }
  }

  lemma TakenOver(rows: Rows, id: string, m: MountEntry, path: string)
    requires id !in rows && TakesOver(rows, m, path)
    ensures !StableRouting(rows, rows[id := m], m.namespaceId)
  {
    var rows', ns := rows[id := m], m.namespaceId;
    var e :| Candidate(rows, e, path, ns);
    CandidateServed(rows, path, ns, e);
    assert forall j | j in rows :: Candidate(rows', j, path, ns) <==> Candidate(rows, j, path, ns);
    assert Serves(rows', id, path, ns) && !Serves(rows, id, path, ns);
  }

  // A new mount leaves all served requests alone exactly if there is none that it takes over.
  lemma StableIffNothingTakenOver(rows: Rows, id: string, m: MountEntry)
    requires id !in rows
    ensures StableRouting(rows, rows[id := m], m.namespaceId) <==> forall path :: !TakesOver(rows, m, path)
  {
    if path :| TakesOver(rows, m, path) {
      TakenOver(rows, id, m, path);
    } else {
      forall path, i | exists served :: Serves(rows, served, path, m.namespaceId)
        ensures Serves(rows[id := m], i, path, m.namespaceId) <==> Serves(rows, i, path, m.namespaceId)
      {
        ServesWithNew(rows, id, m, path, i);
      }
    }
  }

  // The mounts that a new one meets: in its namespace, no longer than it, and with a request
  // path that matches both.
  predicate MeetsMount(rows: Rows, m: MountEntry, e: string) {
    e in rows && rows[e].namespaceId == m.namespaceId && |rows[e].path| <= |m.path| && Meet(rows[e].path + "%", m.path + "%")
  }

  // Whatever wildcards there are: a new mount that meets none disturbs none.
  lemma StableIfMeetsNone(rows: Rows, id: string, m: MountEntry)
    requires id !in rows && forall e :: !MeetsMount(rows, m, e)
    ensures StableRouting(rows, rows[id := m], m.namespaceId)
  {
    forall path ensures !TakesOver(rows, m, path) {
      if TakesOver(rows, m, path) {
        var e :| Candidate(rows, e, path, m.namespaceId);
        BothMatchedMeet(rows[e].path + "%", m.path + "%", path);
        assert MeetsMount(rows, m, e);
      }
    }
    StableIffNothingTakenOver(rows, id, m);
  }

  // Without percent signs that is the exact condition.
  lemma StableIffMeetsNone(rows: Rows, id: string, m: MountEntry)
    requires NoPercentIn(rows) && '%' !in m.path && id !in rows
    ensures StableRouting(rows, rows[id := m], m.namespaceId) <==> forall e :: !MeetsMount(rows, m, e)
  {
    if e :| MeetsMount(rows, m, e) {
      var path := MeetHasWitness(rows[e].path + "%", m.path + "%");
      MatchesPrefix(rows[e].path, path);
      MatchesPrefix(m.path, path);
      path := path[..|m.path|];
      MatchesPrefix(rows[e].path, path);
      MatchesPrefix(m.path, path);
      assert Candidate(rows, e, path, m.namespaceId);
      forall other | Candidate(rows, other, path, m.namespaceId) ensures |rows[other].path| <= |m.path| {
        MatchesPrefix(rows[other].path, path);
      }
      TakenOver(rows, id, m, path);
    } else {
      StableIfMeetsNone(rows, id, m);
    }
  }

  // The check of `mount` is enough when no path has a wildcard.
  lemma MountKeepsRouting(rows: Rows, id: string, m: MountEntry)
    requires NoPercentIn(rows) && NoWildcard(m.path) && id !in rows
    requires Admissible(rows, m.path, m.namespaceId, m.variant)
    ensures StableRouting(rows, rows[id := m], m.namespaceId)
  {
    forall e ensures !MeetsMount(rows, m, e) {
      if MeetsMount(rows, m, e) {
        assert !Candidate(rows, e, m.path, m.namespaceId);
        MeetingMatches(rows[e].path, m.path);
      }
    }
    StableIffMeetsNone(rows, id, m);
  }

  lemma MeetingMatches(e: string, p: string)
    requires '%' !in e && NoWildcard(p) && |e| <= |p| && Meet(e + "%", p + "%")
    ensures Matches(e + "%", p)
  {
    var path := MeetHasWitness(e + "%", p + "%");
    MatchesPrefix(e, path);
    MatchesPrefix(p, path);
    MatchesPrefix(e, p);
    forall i | 0 <= i < |e| ensures MatchesChar(e[i], p[i]) {
      assert p[i] in p;
      assert MatchesChar(e[i], path[i]) && MatchesChar(p[i], path[i]);
    }
  }

  // A lone mount, and a new one that passes the check and takes a request over.
  lemma LoneMountDisturbed(e: MountEntry, m: MountEntry, path: string)
    requires e.namespaceId == m.namespaceId && e.variant == m.variant == Kv
    requires WellMounted(map["1" := e]) && !ClashesWithSystem(m.path) && !StartsWith(m.path, AUTH_PATH)
    requires |e.path| <= |m.path| && !Matches(e.path + "%", m.path)
    requires Matches(e.path + "%", path) && Matches(m.path + "%", path)
    ensures Admissible(map["1" := e], m.path, m.namespaceId, m.variant)
    ensures !StableRouting(map["1" := e], map["1" := e]["2" := m], m.namespaceId)
  {
    assert Candidate(map["1" := e], "1", path, m.namespaceId);
    TakenOver(map["1" := e], "2", m, path);
  }

  lemma UnderscoreMatches()
    ensures !Matches("axb/" + "%", "a_b/") && Matches("axb/" + "%", "axb/") && Matches("a_b/" + "%", "axb/")
  {
    MatchesPrefix("axb/", "a_b/");
    assert !MatchesChar("axb/"[1], "a_b/"[1]);
    MatchesPrefix("axb/", "axb/");
    MatchesPrefix("a_b/", "axb/");
  }

  // With a `_` in the new path the check is not enough.
  lemma WildcardMountDisturbs(config: Leases.MountConfig)
    ensures
      var rows := map["1" := MountEntry("axb/", Kv, config, "ns")];
      var m := MountEntry("a_b/", Kv, config, "ns");
      && Admissible(rows, m.path, "ns", Kv) && ValidPath(m.path) && WellMounted(rows)
      && !StableRouting(rows, rows["2" := m], "ns")
  {
    UnderscoreMatches();
    assert LowerAll("axb/") == "axb/" && LowerAll("a_b/") == "a_b/";
    LoneMountDisturbed(MountEntry("axb/", Kv, config, "ns"), MountEntry("a_b/", Kv, config, "ns"), "axb/");
  }

  lemma PercentMountMatches()
    ensures !Matches("%x/" + "%", "ab/") && Matches("%x/" + "%", "ab/x/") && Matches("ab/" + "%", "ab/x/")
  {
    var rest := "x/" + "%";
    assert "%x/" + "%" == "%" + rest;
    PercentFinds(rest, "ab/");
    PercentFinds(rest, "ab/x/");
    forall n | 0 <= n <= 3 ensures !Matches(rest, "ab/"[n..]) {
      MatchesPrefix("x/", "ab/"[n..]);
    }
    assert "ab/x/"[3..] == "x/";
    MatchesPrefix("x/", "x/");
    MatchesPrefix("ab/", "ab/x/");
  }

  // Nor is it with a `%` in the path of an existing mount, even if the new path is plain.
  lemma PercentMountIsDisturbed(config: Leases.MountConfig)
    ensures
      var rows := map["1" := MountEntry("%x/", Kv, config, "ns")];
      var m := MountEntry("ab/", Kv, config, "ns");
      && Admissible(rows, m.path, "ns", Kv) && ValidPath(m.path) && WellMounted(rows)
      && !StableRouting(rows, rows["2" := m], "ns")
  {
    PercentMountMatches();
    assert LowerAll("%x/") == "%x/" && LowerAll("ab/") == "ab/";
    LoneMountDisturbed(MountEntry("%x/", Kv, config, "ns"), MountEntry("ab/", Kv, config, "ns"), "ab/x/");
  }

  // With a longer mount in front, a new one may meet another and still disturb nothing:
  // with percent signs, meeting none is not necessary.
  lemma CoveredMeetingIsStable(config: Leases.MountConfig)
    ensures
      var rows := map["1" := MountEntry("axb/", Kv, config, "ns"), "2" := MountEntry("%xb/%%", Kv, config, "ns")];
      var m := MountEntry("a_b/", Kv, config, "ns");
      && !Matches("axb/" + "%", "%xb/%%")
      && Admissible(rows, m.path, "ns", Kv) && ValidPath(m.path)
      && MeetsMount(rows, m, "1") && StableRouting(rows, rows["3" := m], "ns")
  {
    var rows := map["1" := MountEntry("axb/", Kv, config, "ns"), "2" := MountEntry("%xb/%%", Kv, config, "ns")];
    var m := MountEntry("a_b/", Kv, config, "ns");
    UnderscoreMatches();
    BothMatchedMeet("axb/" + "%", "a_b/" + "%", "axb/");
    MatchesPrefix("axb/", "%xb/%%");
    CoverMatches();
    assert LowerAll("a_b/") == "a_b/";
    assert |rows["2"].path| == 6;
    forall path ensures !TakesOver(rows, m, path) {
      if e :| Candidate(rows, e, path, "ns") {
        if e == "1" { CoverLonger(path); }
        assert Candidate(rows, "2", path, "ns");
      }
    }
    StableIffNothingTakenOver(rows, "3", m);
  }

  lemma CoverMatches()
    ensures !Matches("%xb/%%" + "%", "a_b/")
  {
    var rest := "xb/%%" + "%";
    assert "%xb/%%" + "%" == "%" + rest;
    PercentFinds(rest, "a_b/");
    forall n | 0 <= n <= 4 ensures !Matches(rest, "a_b/"[n..]) {
      assert rest[0] == 'x';
      assert n < 4 ==> "a_b/"[n..][0] != 'x';
    }
  }

  lemma CoverLonger(path: string)
    requires Matches("axb/" + "%", path)
    ensures Matches("%xb/%%" + "%", path)
  {
    MatchesPrefix("axb/", path);
    var rest := "xb/%%" + "%";
    assert "%xb/%%" + "%" == "%" + rest;
    PercentFinds(rest, path);
    var s := path[1..];
    assert MatchesChar("axb/"[1], path[1]) && MatchesChar("axb/"[2], path[2]) && MatchesChar("axb/"[3], path[3]);
    PercentMatchesAll(s[3..]);
    assert rest[1..] == "b/%%%" && rest[1..][1..] == "/%%%" && rest[1..][1..][1..] == "%%%";
    assert "%%%"[1..] == "%%" && "%%"[1..] == "%";
    assert s[1..][1..][1..] == s[3..];
    assert Matches("%%", s[3..]) && Matches("%%%", s[3..]);
    assert Matches("/%%%", s[1..][1..]);
    assert Matches("b/%%%", s[1..]);
    assert Matches(rest, path[1..]);
  }

  // At most one mount can serve a request if no stored path has a wildcard.
  lemma ServedByOne(rows: Rows, path: string, ns: string, a: string, b: string)
    requires Checked(rows) && forall id | id in rows :: NoWildcard(rows[id].path)
    requires Serves(rows, a, path, ns) && Serves(rows, b, path, ns)
    ensures a == b
  {
    assert Candidate(rows, a, path, ns) && Candidate(rows, b, path, ns);
    MatchesLiteralPrefix(rows[a].path, path);
    MatchesLiteralPrefix(rows[b].path, path);
    assert LowerAll(rows[a].path) == LowerAll(path)[..|rows[a].path|] == LowerAll(rows[b].path);
  }

  // A stored path competes for some request of the system backend.
  ghost predicate Competes(p: string) {
    exists path :: StartsWith(path, SYSTEM_MOUNT_PATH) && Matches(p + "%", path)
  }

  // Up to the case of the letters, the requests of the system backend are what is LIKE `sys/%`.
  lemma LoweredIsSystemPath(path: string)
    ensures Matches(SYSTEM_MOUNT_PATH + "%", path) <==> StartsWith(LowerAll(path), SYSTEM_MOUNT_PATH)
  {
    assert LowerAll(SYSTEM_MOUNT_PATH) == SYSTEM_MOUNT_PATH;
    MatchesLiteralPrefix(SYSTEM_MOUNT_PATH, path);
  }

  // A path competes exactly if its pattern meets that one, whatever wildcards it has.
  lemma SystemCompetesIff(p: string)
    ensures Competes(p) <==> Meet(p + "%", SYSTEM_MOUNT_PATH + "%")
  {
    if path :| StartsWith(path, SYSTEM_MOUNT_PATH) && Matches(p + "%", path) {
      MatchesPrefix(SYSTEM_MOUNT_PATH, path);
      assert forall i | 0 <= i < |SYSTEM_MOUNT_PATH| :: path[i] == SYSTEM_MOUNT_PATH[i];
      BothMatchedMeet(p + "%", SYSTEM_MOUNT_PATH + "%", path);
    }
    if Meet(p + "%", SYSTEM_MOUNT_PATH + "%") {
      var path := MeetHasWitness(p + "%", SYSTEM_MOUNT_PATH + "%");
      LoweredIsSystemPath(path);
      MatchesLowered(p + "%", path);
      assert StartsWith(LowerAll(path), SYSTEM_MOUNT_PATH) && Matches(p + "%", LowerAll(path));
    }
  }

  // As far as both go, the pattern and the path of the system backend agree.
  predicate MeetsSystemPath(p: string) {
    forall i | 0 <= i < |p| && i < |SYSTEM_MOUNT_PATH| :: MatchesChar(p[i], SYSTEM_MOUNT_PATH[i])
  }

  // Without percent signs that is to say that they agree as far as both go.
  lemma PlainCompetesIff(p: string)
    requires '%' !in p
    ensures Competes(p) <==> MeetsSystemPath(p)
  {
    if path :| StartsWith(path, SYSTEM_MOUNT_PATH) && Matches(p + "%", path) {
      MatchesPrefix(p, path);
      assert forall i | 0 <= i < |SYSTEM_MOUNT_PATH| :: path[i] == SYSTEM_MOUNT_PATH[i];
    }
    if MeetsSystemPath(p) {
      var path := SYSTEM_MOUNT_PATH + if |p| > |SYSTEM_MOUNT_PATH| then p[|SYSTEM_MOUNT_PATH|..] else "";
      MatchesPrefix(p, path);
      assert StartsWith(path, SYSTEM_MOUNT_PATH) && Matches(p + "%", path);
    }
  }

  // Without wildcards, what meets the system path is what `mount` refuses.
  lemma MeetsSystemIsClash(p: string)
    requires NoWildcard(p) && LowerAll(p) == p
    ensures MeetsSystemPath(p) <==> ClashesWithSystem(p)
  {
    assert forall i | 0 <= i < |p| :: p[i] in p && LowerAll(p)[i] == p[i];
    if MeetsSystemPath(p) {
      if |p| >= 4 {
        assert p[..4] == SYSTEM_MOUNT_PATH;
      } else {
        assert p == SYSTEM_MOUNT_PATH[..|p|];
      }
    }
  }

  // No mount without wildcards would have answered a request to the system backend.
  lemma SystemNeverCompetes(rows: Rows, path: string, ns: string, id: string)
    requires WellMounted(rows) && (id in rows ==> NoWildcard(rows[id].path))
    requires StartsWith(path, SYSTEM_MOUNT_PATH)
    ensures !Candidate(rows, id, path, ns)
  {
    if Candidate(rows, id, path, ns) {
      assert Competes(rows[id].path);
      PlainCompetesIff(rows[id].path);
      MeetsSystemIsClash(rows[id].path);
    }
  }

  // One with a wildcard may: it passes every check of `mount`.
  lemma WildcardCompetesWithSystem(config: Leases.MountConfig)
    ensures
      var m := MountEntry("s_s/", Kv, config, "ns");
      && Admissible(map[], m.path, "ns", Kv) && ValidPath(m.path) && WellMounted(map["1" := m])
      && Candidate(map["1" := m], "1", "sys/x", "ns")
  {
    var m := MountEntry("s_s/", Kv, config, "ns");
    MatchesPrefix("s_s/", "sys/x");
    assert LowerAll("s_s/") == "s_s/";
  }

  // So may one with a percent sign, though it does not agree with the system path.
  lemma PercentCompetesWithSystem(config: Leases.MountConfig)
    ensures
      var m := MountEntry("%/", Kv, config, "ns");
      && Admissible(map[], m.path, "ns", Kv) && ValidPath(m.path) && WellMounted(map["1" := m])
      && Candidate(map["1" := m], "1", "sys/x", "ns") && !MeetsSystemPath(m.path)
  {
    var rest := "/" + "%";
    assert "%/" + "%" == "%" + rest;
    PercentFinds(rest, "sys/x");
    assert "sys/x"[3..] == "/x";
    MatchesPrefix("/", "/x");
    assert LowerAll("%/") == "%/";
    assert !MatchesChar("%/"[0], SYSTEM_MOUNT_PATH[0]);
  }
}
