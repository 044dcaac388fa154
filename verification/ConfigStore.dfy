// Device configs, their shares and who may do what with them
// (tstlan/configs/service.py).
module ConfigStore {
  import opened Wrappers

  datatype Role = ADMIN | DEV | USER

  datatype User = User(id: int, login: string, role: Role)

  datatype Visibility = PRIVATE | SHARED | PUBLIC

  datatype Permission = READ | WRITE

  datatype Access = OwnerAccess | WriteAccess | ReadAccess

  datatype Share = Share(grantee: int, permission: Permission)

  datatype Config = Config(ownerId: int, name: string, deviceType: string, payload: string,
                           visibility: Visibility, shares: seq<Share>)

  // The table of configs by id, and the next id to be given out.
  datatype Store = Store(configs: map<int, Config>, nextId: int)

  datatype Error = ConfigNotFound | AccessDenied | PublishNotAllowed | GranteeNotFound | CannotShareWithOwner

  // ---------- access ----------

  function FirstShare(shares: seq<Share>, grantee: int): (i: Option<nat>)
    ensures i.Some? ==> i.value < |shares| && shares[i.value].grantee == grantee
    ensures i.Some? ==> forall j | 0 <= j < i.value :: shares[j].grantee != grantee
    ensures i.None? ==> forall j | 0 <= j < |shares| :: shares[j].grantee != grantee
  {
    if shares == [] then None
    else if shares[0].grantee == grantee then Some(0)
    else
      var rest := FirstShare(shares[1..], grantee);
      if rest.Some? then Some(rest.value + 1) else None
  }

  function EffectiveAccess(user: User, config: Config): Option<Access> {
    if user.role == ADMIN || config.ownerId == user.id then Some(OwnerAccess)
    else
      var i := FirstShare(config.shares, user.id);
      if i.Some? then Some(if config.shares[i.value].permission == WRITE then WriteAccess else ReadAccess)
      else if config.visibility == PUBLIC then Some(ReadAccess)
      else None
  }

  predicate CanPublish(user: User) {
    user.role == DEV || user.role == ADMIN
  }

  function Normalized(config: Config): Config {
    if config.visibility == PUBLIC then config
    else config.(visibility := if config.shares != [] then SHARED else PRIVATE)
  }

  // ---------- what each operation is for ----------

  datatype Operation =
    | Create(name: string, deviceType: string, payload: string, visibility: Visibility)
    | Update(id: int, newName: Option<string>, newPayload: Option<string>, newVisibility: Option<Visibility>)
    | Delete(id: int)
    | ShareWith(id: int, login: string, permission: Permission)
    | Unshare(id: int, login: string)

  // The users, with their unique ids and logins.
  predicate ValidUsers(users: seq<User>) {
    forall i, j | 0 <= i < j < |users| :: users[i].id != users[j].id && users[i].login != users[j].login
  }

  function ByLogin(users: seq<User>, login: string): (u: Option<User>)
    ensures u.Some? ==> u.value in users && u.value.login == login
    ensures u.None? ==> forall i | 0 <= i < |users| :: users[i].login != login
  {
    if users == [] then None
    else if users[0].login == login then Some(users[0])
    else ByLogin(users[1..], login)
  }

  // Why an operation is refused, or None if it is carried out.
  function Refusal(users: seq<User>, store: Store, user: User, op: Operation): Option<Error> {
    if op.Create? then
      if op.visibility == PUBLIC && !CanPublish(user) then Some(PublishNotAllowed) else None
    else if op.id !in store.configs then Some(ConfigNotFound)
    else
      var config := store.configs[op.id];
      var access := EffectiveAccess(user, config);
      if access.None? then Some(AccessDenied)
      else if op.Update? then
        if (op.newName.Some? || op.newVisibility.Some?) && access.value != OwnerAccess then Some(AccessDenied)
        else if op.newPayload.Some? && access.value == ReadAccess then Some(AccessDenied)
        else if op.newVisibility == Some(PUBLIC) && !CanPublish(user) then Some(PublishNotAllowed)
        else None
      else if access.value != OwnerAccess then Some(AccessDenied)
      else if op.Delete? then None
      else
        var grantee := ByLogin(users, op.login);
        if op.ShareWith? then
          if grantee.None? then Some(GranteeNotFound)
          else if grantee.value.id == config.ownerId then Some(CannotShareWithOwner)
          else None
        else if grantee.None? || FirstShare(config.shares, grantee.value.id).None? then Some(GranteeNotFound)
        else None
  }

  function WithShare(shares: seq<Share>, grantee: int, permission: Permission): seq<Share> {
    var i := FirstShare(shares, grantee);
    if i.Some? then shares[i.value := Share(grantee, permission)] else shares + [Share(grantee, permission)]
  }

  function Without(shares: seq<Share>, i: nat): seq<Share>
    requires i < |shares|
  {
    shares[..i] + shares[i + 1..]
  }

  function Performed(users: seq<User>, store: Store, user: User, op: Operation): Store
    requires Refusal(users, store, user, op).None?
  {
    match op
    case Create(name, deviceType, payload, visibility) =>
      var config := Config(user.id, name, deviceType, payload, if visibility == PUBLIC then PUBLIC else PRIVATE, []);
      Store(store.configs[store.nextId := config], store.nextId + 1)
    case Update(id, newName, newPayload, newVisibility) =>
      var config := store.configs[id];
      var published := if newVisibility.None? then config
                       else if newVisibility.value == PUBLIC then config.(visibility := PUBLIC)
                       else Normalized(config.(visibility := PRIVATE));
      var named := if newName.Some? then published.(name := newName.value) else published;
      var filled := if newPayload.Some? then named.(payload := newPayload.value) else named;
      store.(configs := store.configs[id := filled])
    case Delete(id) => store.(configs := store.configs - {id})
    case ShareWith(id, login, permission) =>
      var config := store.configs[id];
      var shares := WithShare(config.shares, ByLogin(users, login).value.id, permission);
      store.(configs := store.configs[id := Normalized(config.(shares := shares))])
    case Unshare(id, login) =>
      var config := store.configs[id];
      var i := FirstShare(config.shares, ByLogin(users, login).value.id).value;
      store.(configs := store.configs[id := Normalized(config.(shares := Without(config.shares, i)))])
  }

  function After(users: seq<User>, store: Store, user: User, op: Operation): Store {
    if Refusal(users, store, user, op).None? then Performed(users, store, user, op) else store
  }

  datatype Step = Step(user: User, op: Operation)

  function AfterAll(users: seq<User>, store: Store, steps: seq<Step>): Store
    decreases |steps|
  {
    if steps == [] then store
    else AfterAll(users, After(users, store, steps[0].user, steps[0].op), steps[1..])
  }

  // Operations are carried out one after the other.
  lemma {:induction false} StepsInOrder(users: seq<User>, store: Store, steps: seq<Step>, last: Step)
    ensures AfterAll(users, store, []) == store
    ensures AfterAll(users, store, steps + [last]) ==
            After(users, AfterAll(users, store, steps), last.user, last.op)
    decreases |steps|
  {
    hide After;
    if steps == [] {
      assert (steps + [last])[1..] == [];
    } else {
      assert (steps + [last])[1..] == steps[1..] + [last];
      StepsInOrder(users, After(users, store, steps[0].user, steps[0].op), steps[1..], last);
    }
  }

  // ---------- what holds of every reachable store ----------

  ghost predicate OneSharePerGrantee(shares: seq<Share>) {
    forall i, j | 0 <= i < j < |shares| :: shares[i].grantee != shares[j].grantee
  }

  ghost predicate IsUser(users: seq<User>, id: int) {
    exists u :: u in users && u.id == id
  }

  ghost predicate ConfigOk(users: seq<User>, config: Config) {
    && OneSharePerGrantee(config.shares)
    && (forall i | 0 <= i < |config.shares| :: config.shares[i].grantee != config.ownerId)
    && (forall i | 0 <= i < |config.shares| :: IsUser(users, config.shares[i].grantee))
    && (config.visibility != PUBLIC ==> (config.visibility == SHARED <==> config.shares != []))
  }

  ghost predicate StoreOk(users: seq<User>, store: Store) {
    && (forall id | id in store.configs :: id < store.nextId)
    && (forall id | id in store.configs :: ConfigOk(users, store.configs[id]))
  }

  lemma StepKeepsStoreOk(users: seq<User>, store: Store, user: User, op: Operation)
    requires StoreOk(users, store)
    ensures StoreOk(users, After(users, store, user, op))
  {
    if Refusal(users, store, user, op).None? && !op.Create? && !op.Delete? {
      var config := store.configs[op.id];
      assert ConfigOk(users, config);
      if op.ShareWith? {
        var grantee := ByLogin(users, op.login).value;
        SharingKeepsOk(users, config, grantee, op.permission);
      } else if op.Unshare? {
        var i := FirstShare(config.shares, ByLogin(users, op.login).value.id).value;
        UnsharingKeepsOk(users, config, i);
      } else {
        assert ConfigOk(users, Performed(users, store, user, op).configs[op.id]);
      }
    }
  }

  lemma SharingKeepsOk(users: seq<User>, config: Config, grantee: User, permission: Permission)
    requires ConfigOk(users, config) && grantee in users && grantee.id != config.ownerId
    ensures ConfigOk(users, Normalized(config.(shares := WithShare(config.shares, grantee.id, permission))))
  {
  }

  lemma UnsharingKeepsOk(users: seq<User>, config: Config, i: nat)
    requires ConfigOk(users, config) && i < |config.shares|
    ensures ConfigOk(users, Normalized(config.(shares := Without(config.shares, i))))
  {
    var left := Without(config.shares, i);
    forall j | 0 <= j < |left|
      ensures IsUser(users, left[j].grantee)
    {
      assert left[j] == config.shares[if j < i then j else j + 1];
    }
  }

  // After any sequence of operations by any users, refused or not.
  lemma {:induction false} ReachableStoresOk(users: seq<User>, store: Store, steps: seq<Step>)
    requires StoreOk(users, store)
    ensures StoreOk(users, AfterAll(users, store, steps))
    decreases |steps|
  {
    if steps != [] {
      StepKeepsStoreOk(users, store, steps[0].user, steps[0].op);
      ReachableStoresOk(users, After(users, store, steps[0].user, steps[0].op), steps[1..]);
    }
  }

  // ---------- what access means ----------

  // The user owns the config, as its creator or as an admin.
  predicate Owns(user: User, config: Config) {
    user.role == ADMIN || config.ownerId == user.id
  }

  predicate HasShare(shares: seq<Share>, grantee: int, permission: Permission) {
    exists i :: 0 <= i < |shares| && shares[i] == Share(grantee, permission)
  }

  // Owners may do anything; others have what their share says, and without a
  // share they may read what is public.
  lemma AccessExactly(user: User, config: Config)
    requires OneSharePerGrantee(config.shares)
    ensures EffectiveAccess(user, config) == Some(OwnerAccess) <==> user.role == ADMIN || config.ownerId == user.id
    ensures EffectiveAccess(user, config) == Some(WriteAccess) <==>
            !Owns(user, config) && HasShare(config.shares, user.id, WRITE)
    ensures EffectiveAccess(user, config) == Some(ReadAccess) <==>
            !Owns(user, config) && !HasShare(config.shares, user.id, WRITE) &&
            (HasShare(config.shares, user.id, READ) || config.visibility == PUBLIC)
  {
    var i := FirstShare(config.shares, user.id);
    if i.Some? {
      assert config.shares[i.value] == Share(user.id, config.shares[i.value].permission);
    }
  }

  // Just when a config may be created.
  lemma CreateRefusedExactly(users: seq<User>, store: Store, user: User, op: Operation)
    requires op.Create?
    ensures Refusal(users, store, user, op) ==
            if op.visibility == PUBLIC && user.role == USER then Some(PublishNotAllowed) else None
  {
  }

  // Owners are refused nothing but publishing if they are mere users, and sharing
  // with nobody or with the owner; the rest is for those with a share, and for
  // those with a write share to change the payload alone.
  lemma RefusedExactly(users: seq<User>, store: Store, user: User, op: Operation)
    requires StoreOk(users, store) && !op.Create?
    ensures Refusal(users, store, user, op) == Some(ConfigNotFound) <==> op.id !in store.configs
    ensures op.id in store.configs && Owns(user, store.configs[op.id]) ==>
              var config := store.configs[op.id];
              Refusal(users, store, user, op) ==
              if op.Delete? then None
              else if op.Update? then
                if op.newVisibility == Some(PUBLIC) && user.role == USER then Some(PublishNotAllowed) else None
              else if ByLogin(users, op.login).None? then Some(GranteeNotFound)
              else if op.ShareWith? then
                if ByLogin(users, op.login).value.id == config.ownerId then Some(CannotShareWithOwner) else None
              else if HasShare(config.shares, ByLogin(users, op.login).value.id, READ) ||
                      HasShare(config.shares, ByLogin(users, op.login).value.id, WRITE) then None
              else Some(GranteeNotFound)
    ensures op.id in store.configs && !Owns(user, store.configs[op.id]) ==>
              var shares := store.configs[op.id].shares;
              Refusal(users, store, user, op) ==
              if op.Update? && op.newName.None? && op.newVisibility.None? &&
                 (HasShare(shares, user.id, WRITE) ||
                  (op.newPayload.None? &&
                   (HasShare(shares, user.id, READ) || store.configs[op.id].visibility == PUBLIC)))
              then None else Some(AccessDenied)
  {
    if op.id in store.configs {
      var config := store.configs[op.id];
      assert ConfigOk(users, config);
      AccessExactly(user, config);
      hide EffectiveAccess, StoreOk, ConfigOk;
      if op.Unshare? && ByLogin(users, op.login).Some? {
        ShareIsFound(config.shares, ByLogin(users, op.login).value.id);
      }
    }
  }

  lemma ShareIsFound(shares: seq<Share>, grantee: int)
    ensures FirstShare(shares, grantee).Some? <==> HasShare(shares, grantee, READ) || HasShare(shares, grantee, WRITE)
  {
    var i := FirstShare(shares, grantee);
    if i.Some? {
      var permission := shares[i.value].permission;
      assert shares[i.value] == Share(grantee, permission);
      assert HasShare(shares, grantee, permission);
      assert permission == READ || permission == WRITE;
    }
  }

  // ---------- what an operation stores ----------

  // Creating adds a config of its user with the next id, private unless public.
  lemma CreateStores(users: seq<User>, store: Store, user: User, op: Operation)
    requires op.Create? && Refusal(users, store, user, op).None?
    ensures var after := After(users, store, user, op);
            && after.nextId == store.nextId + 1
            && after.configs.Keys == store.configs.Keys + {store.nextId}
            && (forall id | id in store.configs && id != store.nextId :: after.configs[id] == store.configs[id])
            && var created := after.configs[store.nextId];
               && created.ownerId == user.id && created.name == op.name && created.deviceType == op.deviceType
               && created.payload == op.payload && created.shares == []
               && created.visibility == if op.visibility == PUBLIC then PUBLIC else PRIVATE
  {
  }

  // The others touch one config. An update sets what it names; leaving the public
  // makes a config shared or private as it has shares.
  lemma UpdateStores(users: seq<User>, store: Store, user: User, op: Operation)
    requires op.Update? && Refusal(users, store, user, op).None?
    ensures var after := After(users, store, user, op);
            && after.nextId == store.nextId && after.configs.Keys == store.configs.Keys
            && (forall id | id in store.configs && id != op.id :: after.configs[id] == store.configs[id])
            && var before, changed := store.configs[op.id], after.configs[op.id];
               && changed.ownerId == before.ownerId && changed.deviceType == before.deviceType
               && changed.shares == before.shares
               && (op.newName.Some? ==> changed.name == op.newName.value)
               && (op.newName.None? ==> changed.name == before.name)
               && (op.newPayload.Some? ==> changed.payload == op.newPayload.value)
               && (op.newPayload.None? ==> changed.payload == before.payload)
               && (op.newVisibility.None? ==> changed.visibility == before.visibility)
               && (op.newVisibility == Some(PUBLIC) ==> changed.visibility == PUBLIC)
               && (op.newVisibility == Some(PRIVATE) || op.newVisibility == Some(SHARED) ==>
                     changed.visibility == if before.shares == [] then PRIVATE else SHARED)
  {
  }

  lemma DeleteStores(users: seq<User>, store: Store, user: User, op: Operation)
    requires op.Delete? && Refusal(users, store, user, op).None?
    ensures var after := After(users, store, user, op);
            && after.nextId == store.nextId && after.configs.Keys == store.configs.Keys - {op.id}
            && forall id | id in after.configs :: after.configs[id] == store.configs[id]
  {
  }

  // Sharing gives the grantee this one permission, unsharing takes away what there
  // was; other shares stay, and so does a public config public.
  lemma SharingStores(users: seq<User>, store: Store, user: User, op: Operation)
    requires StoreOk(users, store)
    requires (op.ShareWith? || op.Unshare?) && Refusal(users, store, user, op).None?
    ensures var after := After(users, store, user, op);
            && after.nextId == store.nextId && after.configs.Keys == store.configs.Keys
            && (forall id | id in store.configs && id != op.id :: after.configs[id] == store.configs[id])
            && var before, changed := store.configs[op.id], after.configs[op.id];
               && changed.ownerId == before.ownerId && changed.name == before.name
               && changed.deviceType == before.deviceType && changed.payload == before.payload
               && (changed.visibility == PUBLIC <==> before.visibility == PUBLIC)
               && (op.ShareWith? ==> changed.visibility == PUBLIC || changed.visibility == SHARED)
               && ByLogin(users, op.login).Some?
               && var grantee := ByLogin(users, op.login).value.id;
                  forall g, p :: HasShare(changed.shares, g, p) <==>
                                 if g != grantee then HasShare(before.shares, g, p)
                                 else op.ShareWith? && p == op.permission
  {
    var config, grantee := store.configs[op.id], ByLogin(users, op.login).value.id;
    assert ConfigOk(users, config);
    var i := FirstShare(config.shares, grantee);
    if op.ShareWith? {
      WithShareHolds(config.shares, grantee, op.permission);
    } else {
      WithoutHolds(config.shares, i.value);
    }
  }

  lemma WithShareHolds(shares: seq<Share>, grantee: int, permission: Permission)
    requires OneSharePerGrantee(shares)
    ensures WithShare(shares, grantee, permission) != []
    ensures forall g, p :: HasShare(WithShare(shares, grantee, permission), g, p) <==>
                           if g != grantee then HasShare(shares, g, p) else p == permission
  {
    var after, at := WithShare(shares, grantee, permission), FirstShare(shares, grantee);
    var k := if at.Some? then at.value else |shares|;
    assert after[k] == Share(grantee, permission);
    forall g, p
      ensures HasShare(after, g, p) <==> if g != grantee then HasShare(shares, g, p) else p == permission
    {
      if i :| 0 <= i < |after| && i != k && after[i] == Share(g, p) {
        assert shares[i] == Share(g, p);
      }
      if g != grantee && HasShare(shares, g, p) {
        var i :| 0 <= i < |shares| && shares[i] == Share(g, p);
        assert after[i] == Share(g, p);
      }
    }
  }

  lemma WithoutHolds(shares: seq<Share>, k: nat)
    requires OneSharePerGrantee(shares) && k < |shares|
    ensures forall g, p :: HasShare(Without(shares, k), g, p) <==> g != shares[k].grantee && HasShare(shares, g, p)
  {
    var after := Without(shares, k);
    forall g, p
      ensures HasShare(after, g, p) <==> g != shares[k].grantee && HasShare(shares, g, p)
    {
      if i :| 0 <= i < |after| && after[i] == Share(g, p) {
        assert shares[if i < k then i else i + 1] == Share(g, p);
      }
      if i :| 0 <= i < |shares| && i != k && shares[i] == Share(g, p) {
        assert after[if i < k then i else i - 1] == Share(g, p);
      }
    }
  }

  // ---------- who can change what ----------

  // The only way for a config to become public, or to be created public, is an
  // operation of a dev or an admin.
  lemma OnlyPublishersPublish(users: seq<User>, store: Store, user: User, op: Operation, id: int)
    requires StoreOk(users, store)
    requires var after := After(users, store, user, op);
             id in after.configs && after.configs[id].visibility == PUBLIC
    requires id in store.configs ==> store.configs[id].visibility != PUBLIC
    ensures user.role == DEV || user.role == ADMIN
  {
  }

  // An operation changes at most one config, and its user was allowed to: with
  // owner access anything, with write access the payload alone, with less nothing.
  lemma ChangesAreAuthorized(users: seq<User>, store: Store, user: User, op: Operation, id: int)
    requires StoreOk(users, store) && id in store.configs
    ensures var after := After(users, store, user, op);
            var access := EffectiveAccess(user, store.configs[id]);
            && (id !in after.configs ==> access == Some(OwnerAccess) && op == Delete(id))
            && (id in after.configs && after.configs[id] != store.configs[id] ==>
                  && !op.Create? && op.id == id
                  && (access == Some(OwnerAccess) ||
                      (access == Some(WriteAccess) && op.Update? && op.newPayload.Some? &&
                       after.configs[id] == store.configs[id].(payload := op.newPayload.value))))
            && (id in after.configs ==> after.configs[id].ownerId == store.configs[id].ownerId)
  {
  }

  // A share that is carried out gives the grantee just the access asked for
  // (unless an admin, who owns everything) and changes nobody else's; taking it
  // back leaves the grantee what the visibility alone gives.
  lemma SharingGivesAccess(users: seq<User>, store: Store, user: User, op: Operation, other: User)
    requires StoreOk(users, store) && ValidUsers(users) && other in users
    requires op.ShareWith? || op.Unshare?
    requires Refusal(users, store, user, op).None?
    ensures var before := store.configs[op.id];
            var after := After(users, store, user, op).configs[op.id];
            if other.login != op.login then EffectiveAccess(other, after) == EffectiveAccess(other, before)
            else if other.role == ADMIN then EffectiveAccess(other, after) == Some(OwnerAccess)
            else if op.ShareWith? then
              EffectiveAccess(other, after) == Some(if op.permission == WRITE then WriteAccess else ReadAccess)
            else EffectiveAccess(other, after) == if before.visibility == PUBLIC then Some(ReadAccess) else None
  {
    var before := store.configs[op.id];
    var grantee := ByLogin(users, op.login).value;
    assert ConfigOk(users, before);
    SameUser(users, grantee, other);
    if op.ShareWith? {
      ShareFound(before.shares, grantee.id, op.permission, other.id);
    } else {
      ShareGone(before.shares, FirstShare(before.shares, grantee.id).value, other.id);
    }
  }

  // Whoever created a config owns it for as long as it is there, whatever anybody
  // does in between: no update of it is refused to the creator, publishing aside,
  // nor deleting it, nor sharing it with any other user.
  lemma CreatorKeepsControl(users: seq<User>, store: Store, user: User, create: Operation, steps: seq<Step>)
    requires StoreOk(users, store) && create.Create? && Refusal(users, store, user, create).None?
    ensures var id, later := store.nextId, AfterAll(users, After(users, store, user, create), steps);
            id in later.configs ==>
              && EffectiveAccess(user, later.configs[id]) == Some(OwnerAccess)
              && Refusal(users, later, user, Delete(id)).None?
              && (forall name, payload, visibility | visibility != Some(PUBLIC) ::
                    Refusal(users, later, user, Update(id, name, payload, visibility)).None?)
              && (forall login, permission | ByLogin(users, login).Some? && ByLogin(users, login).value.id != user.id ::
                    Refusal(users, later, user, ShareWith(id, login, permission)).None?)
  {
    var first := After(users, store, user, create);
    StepKeepsStoreOk(users, store, user, create);
    OwnerStays(users, first, steps, store.nextId, user.id);
  }

  lemma {:induction false} OwnerStays(users: seq<User>, store: Store, steps: seq<Step>, id: int, ownerId: int)
    requires StoreOk(users, store) && id < store.nextId
    requires id in store.configs ==> store.configs[id].ownerId == ownerId
    ensures var later := AfterAll(users, store, steps);
            id in later.configs ==> later.configs[id].ownerId == ownerId
    decreases |steps|
  {
    if steps != [] {
      StepKeepsStoreOk(users, store, steps[0].user, steps[0].op);
      StepKeepsOwner(users, store, steps[0].user, steps[0].op, id);
      hide After, StoreOk;
      OwnerStays(users, After(users, store, steps[0].user, steps[0].op), steps[1..], id, ownerId);
    }
  }

  lemma StepKeepsOwner(users: seq<User>, store: Store, user: User, op: Operation, id: int)
    requires id < store.nextId
    ensures var after := After(users, store, user, op);
            && id < after.nextId
            && (id in after.configs ==> id in store.configs && after.configs[id].ownerId == store.configs[id].ownerId)
  {
  }

  lemma SameUser(users: seq<User>, a: User, b: User)
    requires ValidUsers(users) && a in users && b in users
    ensures a.login == b.login <==> a.id == b.id
    ensures a.login == b.login ==> a == b
  {
  }

  lemma ShareFound(shares: seq<Share>, grantee: int, permission: Permission, other: int)
    ensures var after := WithShare(shares, grantee, permission);
            var i := FirstShare(after, other);
            if other == grantee then i.Some? && after[i.value].permission == permission
            else i == FirstShare(shares, other) && (i.Some? ==> after[i.value] == shares[i.value])
  {
    var after := WithShare(shares, grantee, permission);
    var i, j := FirstShare(after, other), FirstShare(shares, other);
    var g := FirstShare(shares, grantee);
    if other == grantee {
      var at := if g.Some? then g.value else |shares|;
      assert after[at].grantee == other;
      assert forall n | 0 <= n < at :: after[n] == shares[n];
    } else {
      if j.Some? {
        assert after[j.value] == shares[j.value];
      }
      if i.Some? && i.value < |shares| && (g.None? || i.value != g.value) {
        assert after[i.value] == shares[i.value];
      }
    }
  }

  lemma ShareGone(shares: seq<Share>, k: nat, other: int)
    requires OneSharePerGrantee(shares) && k < |shares|
    ensures var after := Without(shares, k);
            var i := FirstShare(after, other);
            if other == shares[k].grantee then i.None?
            else
              var j := FirstShare(shares, other);
              && (i.Some? <==> j.Some?)
              && (i.Some? ==> after[i.value] == shares[j.value])
  {
    var after := Without(shares, k);
    var i, j := FirstShare(after, other), FirstShare(shares, other);
    forall n | 0 <= n < |after|
      ensures after[n] == shares[if n < k then n else n + 1]
    {
    }
    if other != shares[k].grantee && j.Some? {
      var n := if j.value < k then j.value else j.value - 1;
      assert after[n] == shares[j.value];
    }
  }

  // A user who may update keeps exactly that access through the update, so the
  // fallback for an access lost by it is never taken.
  lemma UpdateKeepsOwnAccess(users: seq<User>, store: Store, user: User, op: Operation)
    requires op.Update? && Refusal(users, store, user, op).None?
    ensures EffectiveAccess(user, After(users, store, user, op).configs[op.id]) ==
            EffectiveAccess(user, store.configs[op.id])
  {
  }

  // ---------- the listing query ----------

  // A row of configs LEFT OUTER JOIN shares ON the user's shares.
  datatype Row = Row(id: int, share: Option<Share>)

  function Joined(id: int, config: Config, userId: int, n: nat): seq<Row>
    requires n <= |config.shares|
  {
    if n == 0 then []
    else if config.shares[n - 1].grantee == userId
    then Joined(id, config, userId, n - 1) + [Row(id, Some(config.shares[n - 1]))]
    else Joined(id, config, userId, n - 1)
  }

  function JoinedRows(id: int, config: Config, userId: int): seq<Row> {
    var rows := Joined(id, config, userId, |config.shares|);
    if rows == [] then [Row(id, None)] else rows
  }

  predicate Where(store: Store, userId: int, row: Row)
    requires row.id in store.configs
  {
    || store.configs[row.id].ownerId == userId
    || store.configs[row.id].visibility == PUBLIC
    || row.share.Some?
  }

  // The rows of `ids`, filtered by the WHERE clause.
  function Selected(store: Store, userId: int, ids: seq<int>): (rows: seq<Row>)
    requires forall k | 0 <= k < |ids| :: ids[k] in store.configs
  {
    if ids == [] then []
    else
      var n := |ids| - 1;
      Selected(store, userId, ids[..n])
      + Filtered(store, userId, ids[n], JoinedRows(ids[n], store.configs[ids[n]], userId))
  }

  function Filtered(store: Store, userId: int, id: int, rows: seq<Row>): (kept: seq<Row>)
    requires id in store.configs
  {
    if rows == [] then []
    else
      var rest := Filtered(store, userId, id, rows[1..]);
      if rows[0].id == id && Where(store, userId, rows[0]) then [rows[0]] + rest else rest
  }

  // SELECT DISTINCT of the config columns: one entry per config, in row order.
  function SelectDistinct(rows: seq<Row>): seq<int> {
    if rows == [] then []
    else
      var n := |rows| - 1;
      var before := SelectDistinct(rows[..n]);
      if rows[n].id in before then before else before + [rows[n].id]
  }

  // The listing query, over the config ids in the order asked for.
  function Query(store: Store, user: User, ids: seq<int>): seq<int>
    requires forall k | 0 <= k < |ids| :: ids[k] in store.configs
  {
    if user.role == ADMIN then ids else SelectDistinct(Selected(store, user.id, ids))
  }

  // The configs of `ids` that `user` has some access to, in the same order.
  function Accessible(store: Store, user: User, ids: seq<int>): seq<int>
    requires forall k | 0 <= k < |ids| :: ids[k] in store.configs
  {
    if ids == [] then []
    else
      var n := |ids| - 1;
      var before := Accessible(store, user, ids[..n]);
      if EffectiveAccess(user, store.configs[ids[n]]).Some? then before + [ids[n]] else before
  }

  lemma {:induction false} JoinFindsShares(id: int, config: Config, userId: int, n: nat)
    requires n <= |config.shares|
    ensures var rows := Joined(id, config, userId, n);
            && (forall k | 0 <= k < |rows| :: rows[k].id == id && rows[k].share.Some?)
            && (rows == [] <==> forall k | 0 <= k < n :: config.shares[k].grantee != userId)
  {
    if n > 0 {
      JoinFindsShares(id, config, userId, n - 1);
    }
  }

  lemma {:induction false} FilterAll(store: Store, userId: int, id: int, rows: seq<Row>)
    requires id in store.configs
    requires forall k | 0 <= k < |rows| :: rows[k].id == id && Where(store, userId, rows[k])
    ensures Filtered(store, userId, id, rows) == rows
  {
    if rows != [] {
      FilterAll(store, userId, id, rows[1..]);
    }
  }

  // A config survives the WHERE clause, with at least one row and only with its
  // own rows, exactly if the user has access to it.
  lemma RowsOfConfig(store: Store, user: User, id: int)
    requires id in store.configs && user.role != ADMIN
    ensures var kept := Filtered(store, user.id, id, JoinedRows(id, store.configs[id], user.id));
            && (kept != [] <==> EffectiveAccess(user, store.configs[id]).Some?)
            && forall k | 0 <= k < |kept| :: kept[k].id == id
  {
    var config := store.configs[id];
    JoinFindsShares(id, config, user.id, |config.shares|);
    var rows := JoinedRows(id, config, user.id);
    if config.ownerId == user.id || config.visibility == PUBLIC || rows[0].share.Some? {
      FilterAll(store, user.id, id, rows);
    } else {
      assert rows == [Row(id, None)];
      assert rows[1..] == [];
    }
  }

  lemma {:induction false} DistinctOfGroup(rows: seq<Row>, group: seq<Row>, id: int)
    requires forall k | 0 <= k < |group| :: group[k].id == id
    requires id !in SelectDistinct(rows)
    ensures SelectDistinct(rows + group) == if group == [] then SelectDistinct(rows) else SelectDistinct(rows) + [id]
  {
    if group == [] {
      assert rows + group == rows;
    } else {
      var n := |group| - 1;
      DistinctOfGroup(rows, group[..n], id);
      assert (rows + group)[..|rows| + n] == rows + group[..n];
    }
  }

  lemma {:induction false} QueryIsAccessible(store: Store, user: User, ids: seq<int>)
    requires forall k | 0 <= k < |ids| :: ids[k] in store.configs
    requires forall j, k | 0 <= j < k < |ids| :: ids[j] != ids[k]
    requires user.role != ADMIN
    ensures SelectDistinct(Selected(store, user.id, ids)) == Accessible(store, user, ids)
  {
    hide SelectDistinct, Filtered, JoinedRows, EffectiveAccess;
    if ids == [] {
      NoRows();
    } else {
      var n := |ids| - 1;
      QueryIsAccessible(store, user, ids[..n]);
      AccessibleIsFilter(store, user, ids[..n]);
      RowsOfConfig(store, user, ids[n]);
      DistinctOfGroup(Selected(store, user.id, ids[..n]),
                      Filtered(store, user.id, ids[n], JoinedRows(ids[n], store.configs[ids[n]], user.id)), ids[n]);
    }
  }

  lemma NoRows()
    ensures SelectDistinct([]) == []
  {
  }

  lemma {:induction false} AdminAccessesAll(store: Store, user: User, ids: seq<int>)
    requires forall k | 0 <= k < |ids| :: ids[k] in store.configs
    requires user.role == ADMIN
    ensures Accessible(store, user, ids) == ids
  {
    if ids != [] {
      AdminAccessesAll(store, user, ids[..|ids| - 1]);
    }
  }

  // The query returns every config the user may access exactly once, in the
  // order asked for, and no other: nothing is left for the check that follows it.
  lemma QueryAgreesWithAccess(store: Store, user: User, ids: seq<int>)
    requires forall k | 0 <= k < |ids| :: ids[k] in store.configs
    requires forall j, k | 0 <= j < k < |ids| :: ids[j] != ids[k]
    ensures Query(store, user, ids) == Accessible(store, user, ids)
  {
    if user.role == ADMIN {
      AdminAccessesAll(store, user, ids);
    } else {
      QueryIsAccessible(store, user, ids);
    }
  }

  lemma {:induction false} AccessibleIsFilter(store: Store, user: User, ids: seq<int>)
    requires forall k | 0 <= k < |ids| :: ids[k] in store.configs
    requires forall j, k | 0 <= j < k < |ids| :: ids[j] != ids[k]
    ensures forall id :: id in Accessible(store, user, ids) <==>
                         id in ids && EffectiveAccess(user, store.configs[id]).Some?
    ensures forall j, k | 0 <= j < k < |Accessible(store, user, ids)| ::
              Accessible(store, user, ids)[j] != Accessible(store, user, ids)[k]
  {
    if ids != [] {
      var n := |ids| - 1;
      AccessibleIsFilter(store, user, ids[..n]);
      assert ids == ids[..n] + [ids[n]];
    }
  }

  // In the order of `ids`.
  lemma {:induction false} AccessibleInOrder(store: Store, user: User, ids: seq<int>, a: nat, b: nat)
    requires forall k | 0 <= k < |ids| :: ids[k] in store.configs
    requires a < b < |Accessible(store, user, ids)|
    ensures InOrder(ids, Accessible(store, user, ids)[a], Accessible(store, user, ids)[b])
  {
    var n := |ids| - 1;
    var before := Accessible(store, user, ids[..n]);
    if b < |before| {
      AccessibleInOrder(store, user, ids[..n], a, b);
      var p: nat, q: nat :| p < q < n && ids[..n][p] == before[a] && ids[..n][q] == before[b];
      assert ids[p] == before[a] && ids[q] == before[b];
    } else {
      var p := AccessiblePlace(store, user, ids[..n], a);
      assert ids[p] == before[a] && ids[n] == Accessible(store, user, ids)[b];
    }
  }

  lemma {:induction false} AccessiblePlace(store: Store, user: User, ids: seq<int>, a: nat) returns (p: nat)
    requires forall k | 0 <= k < |ids| :: ids[k] in store.configs
    requires a < |Accessible(store, user, ids)|
    ensures p < |ids| && ids[p] == Accessible(store, user, ids)[a]
  {
    var n := |ids| - 1;
    if a < |Accessible(store, user, ids[..n])| {
      p := AccessiblePlace(store, user, ids[..n], a);
    } else {
      p := n;
    }
  }

  // `x` stands before `y` somewhere in `ids`.
  ghost predicate InOrder(ids: seq<int>, x: int, y: int) {
    exists p: nat, q: nat :: p < q < |ids| && ids[p] == x && ids[q] == y
  }

  // ---------- the service ----------

  class ConfigService {
    const users: seq<User>
    var store: Store

    constructor (users: seq<User>)
      requires ValidUsers(users)
      ensures this.users == users && StoreOk(users, store) && store.configs == map[]
    {
      this.users, this.store := users, Store(map[], 1);
    }

    method GetConfig(user: User, id: int) returns (r: Result<(Config, Access), Error>)
      ensures id !in store.configs ==> r == Err(ConfigNotFound)
      ensures id in store.configs ==>
                var access := EffectiveAccess(user, store.configs[id]);
                r == if access.None? then Err(AccessDenied) else Ok((store.configs[id], access.value))
    {
      if id !in store.configs {
        return Err(ConfigNotFound);
      }
      var config := store.configs[id];
      var access := EffectiveAccess(user, config);
      if access.None? {
        return Err(AccessDenied);
      }
      return Ok((config, access.value));
    }

    // The changed row replaces the stored one.
    method Commit(id: int, config: Config)
      modifies this
      ensures store == old(store).(configs := old(store).configs[id := config])
    {
      store := store.(configs := store.configs[id := config]);
    }

    method CreateConfig(user: User, name: string, deviceType: string, payload: string, visibility: Visibility)
      returns (r: Result<(int, Config), Error>)
      modifies this
      ensures store == After(users, old(store), user, Create(name, deviceType, payload, visibility))
      ensures var refusal := Refusal(users, old(store), user, Create(name, deviceType, payload, visibility));
              if refusal.Some? then r == Err(refusal.value)
              else old(store).nextId in store.configs &&
                   r == Ok((old(store).nextId, store.configs[old(store).nextId]))
    {
      var resolved := PRIVATE;
      if visibility == PUBLIC {
        if !CanPublish(user) {
          return Err(PublishNotAllowed);
        }
        resolved := PUBLIC;
      }
      var id := store.nextId;
      var config := Config(user.id, name, deviceType, payload, resolved, []);
      store := Store(store.configs[id := config], id + 1);
      return Ok((id, config));
    }

    method UpdateConfig(user: User, id: int, newName: Option<string>, newPayload: Option<string>,
                        newVisibility: Option<Visibility>)
      returns (r: Result<(Config, Access), Error>)
      modifies this
      ensures store == After(users, old(store), user, Update(id, newName, newPayload, newVisibility))
      ensures var refusal := Refusal(users, old(store), user, Update(id, newName, newPayload, newVisibility));
              if refusal.Some? then r == Err(refusal.value)
              else
                && r.Ok? && id in store.configs && r.value.0 == store.configs[id]
                && Some(r.value.1) == EffectiveAccess(user, old(store).configs[id])
    {
      var found := GetConfig(user, id);
      if found.Err? {
        return Err(found.error);
      }
      var (config, access) := found.value;
      var wantsManage := newName.Some? || newVisibility.Some?;
      if wantsManage && access != OwnerAccess {
        return Err(AccessDenied);
      }
      if newPayload.Some? && access != OwnerAccess && access != WriteAccess {
        return Err(AccessDenied);
      }
      if newVisibility.Some? {
        if newVisibility.value == PUBLIC {
          if !CanPublish(user) {
            return Err(PublishNotAllowed);
          }
          config := config.(visibility := PUBLIC);
        } else {
          config := Normalized(config.(visibility := PRIVATE));
        }
      }
      if newName.Some? {
        config := config.(name := newName.value);
      }
      if newPayload.Some? {
        config := config.(payload := newPayload.value);
      }
      Commit(id, config);
      var now := EffectiveAccess(user, config);
      return Ok((config, if now.Some? then now.value else access));
    }

    method DeleteConfig(user: User, id: int) returns (r: Result<(), Error>)
      modifies this
      ensures store == After(users, old(store), user, Delete(id))
      ensures var refusal := Refusal(users, old(store), user, Delete(id));
              r == if refusal.Some? then Err(refusal.value) else Ok(())
    {
      var found := GetConfig(user, id);
      if found.Err? {
        return Err(found.error);
      }
      if found.value.1 != OwnerAccess {
        return Err(AccessDenied);
      }
      store := store.(configs := store.configs - {id});
      return Ok(());
    }

    method ShareConfig(user: User, id: int, login: string, permission: Permission)
      returns (r: Result<(Config, Access), Error>)
      modifies this
      ensures store == After(users, old(store), user, ShareWith(id, login, permission))
      ensures var refusal := Refusal(users, old(store), user, ShareWith(id, login, permission));
              if refusal.Some? then r == Err(refusal.value)
              else id in store.configs && r == Ok((store.configs[id], OwnerAccess))
    {
      var found := GetConfig(user, id);
      if found.Err? {
        return Err(found.error);
      }
      var (config, access) := found.value;
      if access != OwnerAccess {
        return Err(AccessDenied);
      }
      var grantee := ByLogin(users, login);
      if grantee.None? {
        return Err(GranteeNotFound);
      }
      if grantee.value.id == config.ownerId {
        return Err(CannotShareWithOwner);
      }
      var existing := FirstShare(config.shares, grantee.value.id);
      var shares;
      if existing.Some? {
        shares := config.shares[existing.value := config.shares[existing.value].(permission := permission)];
      } else {
        shares := config.shares + [Share(grantee.value.id, permission)];
      }
      config := Normalized(config.(shares := shares));
      Commit(id, config);
      return Ok((config, access));
    }

    // The share whose grantee, looked up by id, has that login.
    method FindByLogin(shares: seq<Share>, login: string) returns (found: Option<nat>)
      requires ValidUsers(users)
      ensures found == var u := ByLogin(users, login); if u.None? then None else FirstShare(shares, u.value.id)
    {
      var u := ByLogin(users, login);
      for i := 0 to |shares|
        invariant u.Some? ==> forall j | 0 <= j < i :: shares[j].grantee != u.value.id
      {
        if exists k :: 0 <= k < |users| && users[k].id == shares[i].grantee && users[k].login == login {
          return Some(i);
        }
      }
      return None;
    }

    method UnshareConfig(user: User, id: int, login: string) returns (r: Result<(Config, Access), Error>)
      requires ValidUsers(users)
      modifies this
      ensures store == After(users, old(store), user, Unshare(id, login))
      ensures var refusal := Refusal(users, old(store), user, Unshare(id, login));
              if refusal.Some? then r == Err(refusal.value)
              else id in store.configs && r == Ok((store.configs[id], OwnerAccess))
    {
      var found := GetConfig(user, id);
      if found.Err? {
        return Err(found.error);
      }
      var (config, access) := found.value;
      if access != OwnerAccess {
        return Err(AccessDenied);
      }
      var i := FindByLogin(config.shares, login);
      if i.None? {
        return Err(GranteeNotFound);
      }
      config := Normalized(config.(shares := config.shares[..i.value] + config.shares[i.value + 1..]));
      Commit(id, config);
      return Ok((config, access));
    }

    // `ids` are the ids of all configs in the order in which they are listed.
    method ListConfigs(user: User, ids: seq<int>) returns (listed: seq<(int, Access)>)
      requires forall k | 0 <= k < |ids| :: ids[k] in store.configs
      requires forall id | id in store.configs :: id in ids
      requires forall j, k | 0 <= j < k < |ids| :: ids[j] != ids[k]
      ensures forall id, access :: (id, access) in listed <==>
                id in store.configs && EffectiveAccess(user, store.configs[id]) == Some(access)
      ensures |listed| == |Accessible(store, user, ids)|
      ensures forall k | 0 <= k < |listed| :: listed[k].0 == Accessible(store, user, ids)[k]
      ensures forall a, b | 0 <= a < b < |listed| :: InOrder(ids, listed[a].0, listed[b].0)
    {
      forall a: nat, b: nat | a < b < |Accessible(store, user, ids)|
        ensures InOrder(ids, Accessible(store, user, ids)[a], Accessible(store, user, ids)[b])
      {
        AccessibleInOrder(store, user, ids, a, b);
      }
      hide InOrder;
      var configs := Query(store, user, ids);
      QueryAgreesWithAccess(store, user, ids);
      AccessibleIsFilter(store, user, ids);
      forall k | 0 <= k < |configs|
        ensures configs[k] in store.configs && EffectiveAccess(user, store.configs[configs[k]]).Some?
      {
        assert configs[k] in configs;
      }
      listed := [];
      for i := 0 to |configs|
        invariant |listed| == i
        invariant forall k | 0 <= k < i ::
                    && listed[k].0 == configs[k]
                    && EffectiveAccess(user, store.configs[configs[k]]) == Some(listed[k].1)
      {
        var access := EffectiveAccess(user, store.configs[configs[i]]);
        if access.Some? {
          listed := listed + [(configs[i], access.value)];
        }
      }
      forall id, access | id in store.configs && EffectiveAccess(user, store.configs[id]) == Some(access)
        ensures (id, access) in listed
      {
        assert id in configs;
        var k :| 0 <= k < |configs| && configs[k] == id;
        assert listed[k] == (id, access);
      }
    }
  }
}
