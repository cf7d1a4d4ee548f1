/**
 * The cached admin service under the `user:` keys: an unfiltered listing, and
 * lookups by id and by name. Password hashing is a foreign library; its
 * output is an input of the operations that store a hash.
 */
module AdminCache {
  import opened Wrappers
  import opened Entities
  import opened Decimal
  import opened CacheKeys
  import opened KeyValue
  import opened Query

  const NS: string := "user"

  /** Every admin entry is written with `EX 18000`. */
  const TTL: int := 18000

  /** The update input: the target id and three optional properties. */
  datatype AdminPatch = AdminPatch(
    adminId: int,
    adminName: Arg<string>,
    adminPassword: Arg<string>,
    isActive: Arg<bool>)

  /** JavaScript truthiness of an optional string property: given and not empty. */
  predicate TruthyText(a: Arg<string>) {
    a.Given? && a.value != ""
  }

  /**
   * The admin as `update` leaves it: a new hash only for a truthy password, a
   * new name only for a truthy name, a new flag only for a boolean.
   */
  function Updated(a: Admin, p: AdminPatch, hash: string): Admin {
    a.(adminPasswordHash := if TruthyText(p.adminPassword) then hash else a.adminPasswordHash,
       adminName := if TruthyText(p.adminName) then p.adminName.value else a.adminName,
       isActive := if p.isActive.Given? then p.isActive.value else a.isActive)
  }

  /**
   * The three conditional assignments of `update`, one after the other, on
   * the loaded row.
   */
  method ApplyUpdate(a: Admin, p: AdminPatch, hash: string) returns (r: Admin)
    ensures r.adminId == a.adminId && r.createdAt == a.createdAt
    ensures r.adminPasswordHash == (if TruthyText(p.adminPassword) then hash else a.adminPasswordHash)
    ensures r.adminName == (if TruthyText(p.adminName) then p.adminName.value else a.adminName)
    ensures r.isActive == (if p.isActive.Given? then p.isActive.value else a.isActive)
  {
    r := a;
    if TruthyText(p.adminPassword) {
      r := r.(adminPasswordHash := hash);
    }
    if TruthyText(p.adminName) {
      r := r.(adminName := p.adminName.value);
    }
    if p.isActive.Given? {
      r := r.(isActive := p.isActive.value);
    }
  }

  /** The field rules agree with `Updated`, and an empty name or password changes nothing. */
  lemma UpdateFieldRules(a: Admin, p: AdminPatch, hash: string)
    ensures Updated(a, p, hash).adminId == a.adminId
    ensures p.adminName.Given? && p.adminName.value == "" ==> Updated(a, p, hash).adminName == a.adminName
    ensures p.adminPassword.Given? && p.adminPassword.value == "" ==>
      Updated(a, p, hash).adminPasswordHash == a.adminPasswordHash
    ensures !p.adminName.Given? && !p.adminPassword.Given? && !p.isActive.Given? ==> Updated(a, p, hash) == a
  {
  }

  /** The row `save(create({ adminName, adminPasswordHash }))` inserts: active by default. */
  function NewAdmin(name: string, hash: string, id: int, now: int): Admin {
    Admin(id, name, hash, true, now)
  }

  /** The keys `create` deletes. */
  function CreateKeys(name: string, id: int): set<string> {
    {AllKey(NS), NameKey(NS, name), IdKey(NS, id)}
  }

  /** The keys `update` deletes: the by-name key is that of the name after the update. */
  function UpdateKeys(a: Admin): set<string> {
    {AllKey(NS), NameKey(NS, a.adminName), IdKey(NS, a.adminId)}
  }

  /** The keys `updateActive` deletes. */
  function ActiveKeys(id: int): set<string> {
    {AllKey(NS), IdKey(NS, id)}
  }

  /** The keys `remove` deletes: the by-name key is built from the numeric id. */
  function RemoveKeys(id: int): set<string> {
    {AllKey(NS), IdKey(NS, id), NameKey(NS, IntToString(id))}
  }

  /**
   * A rename leaves the by-name entry of the previous name in place, with the
   * row as it was before the rename.
   */
  lemma RenameKeepsOldNameEntry(c: map<string, Entry>, updated: Admin, oldName: string)
    requires oldName != updated.adminName
    ensures NameKey(NS, oldName) in c ==>
      NameKey(NS, oldName) in c - UpdateKeys(updated) && (c - UpdateKeys(updated))[NameKey(NS, oldName)] == c[NameKey(NS, oldName)]
  {
    NameKeyApart(NS, oldName);
    if NameKey(NS, oldName) == NameKey(NS, updated.adminName) {
      NameKeyInjective(NS, oldName, updated.adminName);
    }
  }

  /**
   * `remove` deletes `user:name:<id>`, not the key of the removed admin's
   * name: unless the name is the id's digits, its by-name entry survives.
   */
  lemma RemoveKeepsNameEntry(c: map<string, Entry>, id: int, name: string)
    requires name != IntToString(id)
    ensures NameKey(NS, name) in c ==>
      NameKey(NS, name) in c - RemoveKeys(id) && (c - RemoveKeys(id))[NameKey(NS, name)] == c[NameKey(NS, name)]
  {
    NameKeyApart(NS, name);
    if NameKey(NS, name) == NameKey(NS, IntToString(id)) {
      NameKeyInjective(NS, name, IntToString(id));
    }
  }

  class AdminService {
    const redis: Redis
    var rows: map<int, Admin>

    /** The table holds each admin under its own key. */
    ghost predicate Valid()
      reads this
    {
      KeyedBy(rows, AdminKey)
    }

    /**
     * An id key holds the stored row; the listing key a non-empty list of all
     * rows; a by-name key some admin of that name, possibly one that has since
     * been renamed or removed.
     */
    ghost predicate Coherent()
      reads this, redis
    {
      && (forall id :: IdKey(NS, id) in redis.entries ==>
            id in rows && redis.entries[IdKey(NS, id)].value == OneAdmin(rows[id]))
      && (AllKey(NS) in redis.entries ==>
            var v := redis.entries[AllKey(NS)].value;
            v.Admins? && v.admins != [] && IsSelection(rows, Everything, AdminKey, v.admins))
      && (forall name :: NameKey(NS, name) in redis.entries ==>
            redis.entries[NameKey(NS, name)].value.OneAdmin?
            && redis.entries[NameKey(NS, name)].value.admin.adminName == name)
    }

    constructor (cache: Redis, table: map<int, Admin>)
      requires cache.entries == map[]
      requires KeyedBy(table, AdminKey)
      ensures redis == cache && rows == table
      ensures Valid() && Coherent()
    {
      redis := cache;
      rows := table;
    }

    /** `findAll`: every admin, unfiltered and in no particular order, through `user:all`. */
    method FindAll() returns (r: Option<seq<Admin>>)
      requires Valid() && Coherent()
      modifies redis
      ensures Valid() && Coherent()
      ensures r.Some? ==> r.value != [] && IsSelection(rows, Everything, AdminKey, r.value)
      ensures r.None? <==> rows == map[]
      ensures AllKey(NS) in old(redis.entries) ==>
        redis.entries == old(redis.entries) && r == Some(old(redis.entries)[AllKey(NS)].value.admins)
      ensures AllKey(NS) !in old(redis.entries) ==>
        redis.entries == if r.None? then old(redis.entries)
                         else old(redis.entries)[AllKey(NS) := Entry(Admins(r.value), TTL)]
    {
      var cached := redis.Get(AllKey(NS));
      var xs: seq<Admin>;
      if cached.Some? {
        xs := cached.value.admins;
      } else {
        xs := SelectNewestFirst(rows, Everything, AdminKey, AdminStamp);
      }
      SelectionBounded(rows, Everything, AdminKey, xs);
      if rows != map[] {
        var k := Pick(rows.Keys);
        assert Everything(rows[k]);
      }
      if cached.Some? {
        return Some(xs);
      }
      if |xs| > 0 {
        var _ := redis.Set(AllKey(NS), Admins(xs), TTL);
        AllKeyApart(NS);
        r := Some(xs);
      } else {
        r := None;
      }
    }

    /** `findById`: the stored admin, read through `user:id:<id>`. */
    method FindById(id: int) returns (r: Option<Admin>)
      requires Valid() && Coherent()
      modifies redis
      ensures Valid() && Coherent()
      ensures r == if id in rows then Some(rows[id]) else None
      ensures redis.entries ==
        if id in rows then Fill(old(redis.entries), IdKey(NS, id), Entry(OneAdmin(rows[id]), TTL))
        else old(redis.entries)
    {
      var cached := redis.Get(IdKey(NS, id));
      if cached.Some? {
        return Some(cached.value.admin);
      }
      if id in rows {
        var _ := redis.Set(IdKey(NS, id), OneAdmin(rows[id]), TTL);
        IdKeyApart(NS, id);
        r := Some(rows[id]);
      } else {
        r := None;
      }
    }

    /**
     * `findByName`: an admin of that name, read through `user:name:<name>`.
     * A cached entry is answered as it is; on a miss some stored admin of that
     * name is answered and cached.
     */
    method FindByName(name: string) returns (r: Option<Admin>)
      requires Valid() && Coherent()
      modifies redis
      ensures Valid() && Coherent()
      ensures r.Some? ==> r.value.adminName == name
      ensures NameKey(NS, name) in old(redis.entries) ==>
        redis.entries == old(redis.entries) && r == Some(old(redis.entries)[NameKey(NS, name)].value.admin)
      ensures NameKey(NS, name) !in old(redis.entries) ==>
        && (r.None? <==> forall k :: k in rows ==> rows[k].adminName != name)
        && (r.Some? ==> r.value.adminId in rows && rows[r.value.adminId] == r.value)
        && redis.entries == if r.None? then old(redis.entries)
                            else old(redis.entries)[NameKey(NS, name) := Entry(OneAdmin(r.value), TTL)]
    {
      var cached := redis.Get(NameKey(NS, name));
      if cached.Some? {
        return Some(cached.value.admin);
      }
      if forall k :: k in rows ==> rows[k].adminName != name {
        return None;
      }
      var k :| k in rows && rows[k].adminName == name;
      var _ := redis.Set(NameKey(NS, name), OneAdmin(rows[k]), TTL);
      NameKeyApart(NS, name);
      forall n | NameKey(NS, n) == NameKey(NS, name) ensures n == name {
        NameKeyInjective(NS, n, name);
      }
      r := Some(rows[k]);
    }

    /** Three DELs in a row. */
    method DeleteKeys(a: string, b: string, c: string)
      modifies redis
      ensures redis.entries == old(redis.entries) - {a, b, c}
    {
      var _ := redis.Del(a);
      var _ := redis.Del(b);
      var _ := redis.Del(c);
    }

    /** `create`: stores the name with the hash of the password; then deletes the three keys. */
    method Create(name: string, hash: string, newId: int, now: int, saved: bool) returns (r: Option<Admin>)
      requires Valid() && Coherent()
      requires newId !in rows
      modifies this, redis
      ensures Valid() && Coherent()
      ensures r == if saved then Some(NewAdmin(name, hash, newId, now)) else None
      ensures rows == if saved then old(rows)[newId := NewAdmin(name, hash, newId, now)] else old(rows)
      ensures redis.entries == if saved then old(redis.entries) - CreateKeys(name, newId) else old(redis.entries)
    {
      if !saved {
        return None;
      }
      var admin := NewAdmin(name, hash, newId, now);
      rows := rows[newId := admin];
      DeleteKeys(AllKey(NS), NameKey(NS, name), IdKey(NS, newId));
      r := Some(admin);
    }

    /**
     * `update`: loads the row from the table (not the cache), applies the
     * field rules, saves, deletes the listing, the new name's key and the id
     * key, and re-reads the admin by id.
     */
    method Update(patch: AdminPatch, hash: string, saved: bool) returns (r: Option<Admin>)
      requires Valid() && Coherent()
      modifies this, redis
      ensures Valid() && Coherent()
      ensures patch.adminId !in old(rows) || !saved ==>
        r == None && rows == old(rows) && redis.entries == old(redis.entries)
      ensures patch.adminId in old(rows) && saved ==>
        var updated := Updated(old(rows)[patch.adminId], patch, hash);
        && r == Some(updated)
        && rows == old(rows)[patch.adminId := updated]
        && redis.entries == (old(redis.entries) - UpdateKeys(updated))[IdKey(NS, patch.adminId) := Entry(OneAdmin(updated), TTL)]
    {
      if patch.adminId !in rows {
        return None;
      }
      var admin := ApplyUpdate(rows[patch.adminId], patch, hash);
      assert admin == Updated(rows[patch.adminId], patch, hash);
      if !saved {
        return None;
      }
      rows := rows[admin.adminId := admin];
      DeleteKeys(AllKey(NS), NameKey(NS, admin.adminName), IdKey(NS, admin.adminId));
      r := FindById(admin.adminId);
    }

    /**
     * `updateActive`: after an existence check through the cache, sets the
     * flag in the table (its result is not looked at), deletes the listing
     * and the id key, and re-reads the admin.
     */
    method UpdateActive(id: int, isActive: bool) returns (r: Option<Admin>)
      requires Valid() && Coherent()
      modifies this, redis
      ensures Valid() && Coherent()
      ensures id !in old(rows) ==> r == None && rows == old(rows) && redis.entries == old(redis.entries)
      ensures id in old(rows) ==>
        var updated := old(rows)[id].(isActive := isActive);
        && r == Some(updated)
        && rows == old(rows)[id := updated]
        && redis.entries == (old(redis.entries) - ActiveKeys(id))[IdKey(NS, id) := Entry(OneAdmin(updated), TTL)]
    {
      var found := FindById(id);
      if found.None? {
        return None;
      }
      rows := rows[id := rows[id].(isActive := isActive)];
      var _ := redis.Del(AllKey(NS));
      var _ := redis.Del(IdKey(NS, id));
      r := FindById(id);
    }

    /** `remove`: true exactly when one row went; only then are the listing, the id key and `user:name:<id>` deleted. */
    method Remove(id: int) returns (ok: bool)
      requires Valid() && Coherent()
      modifies this, redis
      ensures Valid() && Coherent()
      ensures ok <==> id in old(rows)
      ensures rows == old(rows) - {id}
      ensures redis.entries == if ok then old(redis.entries) - RemoveKeys(id) else old(redis.entries)
    {
      var affected := if id in rows then 1 else 0;
      rows := rows - {id};
      if affected == 1 {
        DeleteKeys(AllKey(NS), IdKey(NS, id), NameKey(NS, IntToString(id)));
        ok := true;
      } else {
        ok := false;
      }
    }
  }
}
