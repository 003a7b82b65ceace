/**
  `AccessControlService`: the batch lists (`getAccessibleCameraIds`, `getPlaybackCameraIds`) and the
  per-camera gates (`canViewCamera`, `canPlaybackCamera`) answer the same questions by different queries.
  The database is two maps and a list of permission rows.
 */
module AccessControl {
  import opened Wrappers

  type Id = string

  datatype Role = SuperAdmin | Admin | Operator | Viewer

  datatype User = User(id: Id, role: Role)

  datatype Level = View | Control | Record | Administer

  datatype AccessStatus = Active | Restricted | Suspended

  datatype Camera = Camera(isPrivate: bool, owner: Option<Id>, group: Option<Id>)

  datatype Group = Group(isActive: bool, accessStatus: AccessStatus)

  /** A row grants a level on a camera, on a group, or on both. */
  datatype Permission = Permission(userId: Id, cameraId: Option<Id>, groupId: Option<Id>, level: Level)

  datatype Db = Db(cameras: map<Id, Camera>, groups: map<Id, Group>, permissions: seq<Permission>)

  function Weight(level: Level): nat {
    match level
    case View => 1
    case Control => 2
    case Record => 3
    case Administer => 4
  }

  predicate IsPrivileged(user: User) { user.role.SuperAdmin? || user.role.Admin? }

  // ---------------------------------------------------------------------------------------------
  // The lists
  // ---------------------------------------------------------------------------------------------

  function DirectIds(db: Db, user: User): set<Id> {
    set p | p in db.permissions && p.userId == user.id && p.cameraId.Some? :: p.cameraId.value
  }

  function GrantedGroupIds(db: Db, user: User): set<Id> {
    set p | p in db.permissions && p.userId == user.id && p.groupId.Some? :: p.groupId.value
  }

  predicate GroupGrants(db: Db, group: Id) {
    group in db.groups && db.groups[group].isActive && !db.groups[group].accessStatus.Suspended?
  }

  function FilterAllowedGroupIds(db: Db, groups: set<Id>): set<Id> { set g | g in groups && GroupGrants(db, g) }

  function AuthorizedPrivateIds(db: Db, user: User): set<Id> {
    var ownedPrivate := set id | id in db.cameras && db.cameras[id].isPrivate && db.cameras[id].owner == Some(user.id);
    var directPrivate := set id | id in db.cameras && id in DirectIds(db, user) && db.cameras[id].isPrivate;
    ownedPrivate + directPrivate
  }

  function GroupCameras(db: Db, groups: set<Id>): set<Id> {
    set id | id in db.cameras && db.cameras[id].group.Some? && db.cameras[id].group.value in groups
  }

  function GetAccessibleCameraIds(db: Db, user: User): set<Id> {
    var authorizedPrivate := AuthorizedPrivateIds(db, user);
    if IsPrivileged(user) then
      (set id | id in db.cameras && !db.cameras[id].isPrivate) + authorizedPrivate
    else
      var groupCameras := GroupCameras(db, FilterAllowedGroupIds(db, GrantedGroupIds(db, user)));
      var candidate := DirectIds(db, user) + groupCameras;
      var privateSet := set id | id in groupCameras && db.cameras[id].isPrivate;
      set id | id in candidate && (id !in privateSet || id in authorizedPrivate)
  }

  function GetPlaybackCameraIds(db: Db, user: User): set<Id> {
    var accessible := GetAccessibleCameraIds(db, user);
    if accessible == {} || IsPrivileged(user) then accessible
    else
      var cameras := set id | id in accessible && id in db.cameras;
      var groups := set id | id in cameras && db.cameras[id].group.Some? :: db.cameras[id].group.value;
      var restricted := set g | g in groups && g in db.groups && db.groups[g].accessStatus.Restricted?;
      set id | id in cameras && (db.cameras[id].group.None? || db.cameras[id].group.value !in restricted)
  }

  // ---------------------------------------------------------------------------------------------
  // The gates
  // ---------------------------------------------------------------------------------------------

  predicate Concerns(db: Db, p: Permission, userId: Id, cameraId: Id)
    requires cameraId in db.cameras
  {
    var group := db.cameras[cameraId].group;
    && p.userId == userId
    && (p.cameraId == Some(cameraId) || (group.Some? && GroupGrants(db, group.value) && p.groupId == group))
  }

  /** The levels of the rows that concern this user and this camera, in table order. */
  function LevelsFor(db: Db, userId: Id, cameraId: Id, n: nat): seq<Level>
    requires cameraId in db.cameras && n <= |db.permissions|
  {
    if n == 0 then []
    else
      var before := LevelsFor(db, userId, cameraId, n - 1);
      if Concerns(db, db.permissions[n - 1], userId, cameraId) then before + [db.permissions[n - 1].level] else before
  }

  function MaxLevel(levels: seq<Level>): (max: Option<Level>)
  {
    if levels == [] then None
    else
      var last := levels[|levels| - 1];
      var before := MaxLevel(levels[..|levels| - 1]);
      if before.None? || Weight(last) > Weight(before.value) then Some(last) else before
  }

  function MaxPermissionLevel(db: Db, userId: Id, cameraId: Id): Option<Level> {
    if cameraId !in db.cameras then None
    else MaxLevel(LevelsFor(db, userId, cameraId, |db.permissions|))
  }

  method GetMaxPermissionLevel(db: Db, userId: Id, cameraId: Id) returns (result: Option<Level>)
    ensures result == MaxPermissionLevel(db, userId, cameraId)
  {
    if cameraId !in db.cameras {
      return None;
    }
    var perms := LevelsFor(db, userId, cameraId, |db.permissions|);
    if |perms| == 0 {
      return None;
    }
    var max := perms[0];
    for i := 0 to |perms|
      invariant i == 0 ==> max == perms[0]
      invariant i > 0 ==> MaxLevel(perms[..i]) == Some(max)
    {
      assert perms[..i + 1][..i] == perms[..i];
      if Weight(perms[i]) > Weight(max) {
        max := perms[i];
      }
    }
    assert perms[..|perms|] == perms;
    return Some(max);
  }

  predicate HasLevel(db: Db, user: User, cameraId: Id, min: Level) {
    IsPrivileged(user) ||
    (var max := MaxPermissionLevel(db, user.id, cameraId);
     max.Some? && Weight(max.value) >= Weight(min))
  }

  /** `None` when the camera is missing or not private, and the general rule applies. */
  function HasPrivateContentLevel(db: Db, user: User, cameraId: Id, min: Level): Option<bool> {
    if cameraId !in db.cameras || !db.cameras[cameraId].isPrivate then None
    else if db.cameras[cameraId].owner == Some(user.id) then Some(true)
    else Some(exists p :: p in db.permissions && p.userId == user.id && p.cameraId == Some(cameraId)
                          && Weight(p.level) >= Weight(min))
  }

  predicate CanUse(db: Db, user: User, cameraId: Id, min: Level) {
    var privateAccess := HasPrivateContentLevel(db, user, cameraId, min);
    if privateAccess.Some? then privateAccess.value else HasLevel(db, user, cameraId, min)
  }

  predicate CanViewCamera(db: Db, user: User, cameraId: Id) { CanUse(db, user, cameraId, View) }

  predicate CanPlaybackCamera(db: Db, user: User, cameraId: Id) {
    if !CanViewCamera(db, user, cameraId) then false
    else if IsPrivileged(user) then true
    else if cameraId !in db.cameras || db.cameras[cameraId].group.None? then true
    else
      var group := db.cameras[cameraId].group.value;
      !(group in db.groups && db.groups[group].accessStatus.Restricted?)
  }

  // ---------------------------------------------------------------------------------------------
  // What the gates mean, row by row
  // ---------------------------------------------------------------------------------------------

  lemma {:induction false} MaxLevelReaches(levels: seq<Level>, min: Level)
    ensures MaxLevel(levels).Some? && Weight(MaxLevel(levels).value) >= Weight(min) <==>
            exists i :: 0 <= i < |levels| && Weight(levels[i]) >= Weight(min)
  {
    if levels != [] {
      var n := |levels| - 1;
      MaxLevelReaches(levels[..n], min);
      if exists i :: 0 <= i < n && Weight(levels[i]) >= Weight(min) {
        var i :| 0 <= i < n && Weight(levels[i]) >= Weight(min);
        assert levels[..n][i] == levels[i];
      }
    }
  }

  lemma {:induction false} LevelsForAre(db: Db, userId: Id, cameraId: Id, n: nat, min: Level)
    requires cameraId in db.cameras && n <= |db.permissions|
    ensures (exists i :: 0 <= i < |LevelsFor(db, userId, cameraId, n)| && Weight(LevelsFor(db, userId, cameraId, n)[i]) >= Weight(min))
       <==> exists k :: 0 <= k < n && Concerns(db, db.permissions[k], userId, cameraId) && Weight(db.permissions[k].level) >= Weight(min)
  {
    if n > 0 {
      LevelsForAre(db, userId, cameraId, n - 1, min);
      var before, now := LevelsFor(db, userId, cameraId, n - 1), LevelsFor(db, userId, cameraId, n);
      if i :| 0 <= i < |before| && Weight(before[i]) >= Weight(min) {
        assert now[i] == before[i];
      }
      if Concerns(db, db.permissions[n - 1], userId, cameraId) && Weight(db.permissions[n - 1].level) >= Weight(min) {
        assert now[|now| - 1] == db.permissions[n - 1].level;
      }
    }
  }

  /** Some single row suffices: a direct one, or one on the camera's group if the group still grants access. */
  predicate Granted(db: Db, user: User, cameraId: Id, min: Level)
    requires cameraId in db.cameras
  {
    exists p :: p in db.permissions && Concerns(db, p, user.id, cameraId) && Weight(p.level) >= Weight(min)
  }

  lemma MaxPermissionIsGrant(db: Db, user: User, cameraId: Id, min: Level)
    requires cameraId in db.cameras
    ensures (var max := MaxPermissionLevel(db, user.id, cameraId); max.Some? && Weight(max.value) >= Weight(min))
       <==> Granted(db, user, cameraId, min)
  {
    hide Granted, Concerns, LevelsFor, MaxLevel, Weight;
    var n := |db.permissions|;
    assert MaxPermissionLevel(db, user.id, cameraId) == MaxLevel(LevelsFor(db, user.id, cameraId, n));
    MaxLevelReaches(LevelsFor(db, user.id, cameraId, n), min);
    LevelsForAre(db, user.id, cameraId, n, min);
    GrantedAtIndex(db, user, cameraId, min);
  }

  lemma GrantedAtIndex(db: Db, user: User, cameraId: Id, min: Level)
    requires cameraId in db.cameras
    ensures Granted(db, user, cameraId, min) <==>
            exists k :: 0 <= k < |db.permissions|
                        && Concerns(db, db.permissions[k], user.id, cameraId) && Weight(db.permissions[k].level) >= Weight(min)
  {
    hide Concerns, Weight;
    if Granted(db, user, cameraId, min) {
      var p :| p in db.permissions && Concerns(db, p, user.id, cameraId) && Weight(p.level) >= Weight(min);
      var k :| 0 <= k < |db.permissions| && db.permissions[k] == p;
      assert Concerns(db, db.permissions[k], user.id, cameraId);
    }
    if k :| 0 <= k < |db.permissions|
            && Concerns(db, db.permissions[k], user.id, cameraId) && Weight(db.permissions[k].level) >= Weight(min)
    {
      assert db.permissions[k] in db.permissions;
    }
  }

  /** VIEW below CONTROL below RECORD below ADMIN. */
  predicate AtLeast(level: Level, min: Level) {
    match min
    case View => true
    case Control => level != View
    case Record => level == Record || level == Administer
    case Administer => level == Administer
  }

  /** The row is the user's and high enough. */
  predicate GivesLevel(p: Permission, user: User, min: Level) { p.userId == user.id && AtLeast(p.level, min) }

  /**
    Who may use a camera, written out. A private one: its owner and holders of a direct row of the level. Any other:
    administrators, holders of a direct row of the level, and holders of such a row on its group while that is active
    and not suspended. A camera that does not exist: administrators.
   */
  lemma UseExactly(db: Db, user: User, cameraId: Id, min: Level)
    ensures cameraId !in db.cameras ==> (CanUse(db, user, cameraId, min) <==> user.role == SuperAdmin || user.role == Admin)
    ensures cameraId in db.cameras && db.cameras[cameraId].isPrivate ==>
              (CanUse(db, user, cameraId, min) <==>
               || db.cameras[cameraId].owner == Some(user.id)
               || exists p :: p in db.permissions && GivesLevel(p, user, min) && p.cameraId == Some(cameraId))
    ensures cameraId in db.cameras && !db.cameras[cameraId].isPrivate ==>
              (CanUse(db, user, cameraId, min) <==>
               || user.role == SuperAdmin || user.role == Admin
               || (exists p :: p in db.permissions && GivesLevel(p, user, min) && p.cameraId == Some(cameraId))
               || var group := db.cameras[cameraId].group;
                  && group.Some? && group.value in db.groups
                  && db.groups[group.value].isActive && db.groups[group.value].accessStatus != Suspended
                  && exists p :: p in db.permissions && GivesLevel(p, user, min) && p.groupId == group)
  {
    assert forall level: Level :: Weight(level) >= Weight(min) <==> AtLeast(level, min);
    if cameraId in db.cameras {
      MaxPermissionIsGrant(db, user, cameraId, min);
    }
    hide MaxPermissionLevel, Weight, AtLeast;
    if cameraId in db.cameras && !db.cameras[cameraId].isPrivate && Granted(db, user, cameraId, min) {
      var p :| p in db.permissions && Concerns(db, p, user.id, cameraId) && Weight(p.level) >= Weight(min);
      assert GivesLevel(p, user, min);
    }
    forall p | p in db.permissions
      ensures p.userId == user.id && Weight(p.level) >= Weight(min) <==> GivesLevel(p, user, min)
    {
    }
  }

  /** History asks for more: an ordinary user loses it where the camera's group is restricted. */
  lemma PlaybackGateExactly(db: Db, user: User, cameraId: Id)
    ensures CanPlaybackCamera(db, user, cameraId) <==>
            && CanUse(db, user, cameraId, View)
            && (|| user.role == SuperAdmin || user.role == Admin
                || cameraId !in db.cameras || db.cameras[cameraId].group.None?
                || db.cameras[cameraId].group.value !in db.groups
                || db.groups[db.cameras[cameraId].group.value].accessStatus != Restricted)
    ensures CanViewCamera(db, user, cameraId) == CanUse(db, user, cameraId, View)
  {
  }

  // ---------------------------------------------------------------------------------------------
  // Lists and gates agree
  // ---------------------------------------------------------------------------------------------

  /** The camera's group grants access and the user holds a row on it. */
  predicate GroupReaches(db: Db, user: User, cameraId: Id)
    requires cameraId in db.cameras
  {
    var group := db.cameras[cameraId].group;
    group.Some? && GroupGrants(db, group.value) && group.value in GrantedGroupIds(db, user)
  }

  /** A camera only its owner can see, and only through the gate: the list's candidates come from permission rows. */
  predicate OwnedWithoutRow(db: Db, user: User, cameraId: Id)
    requires cameraId in db.cameras
  {
    && !IsPrivileged(user) && db.cameras[cameraId].isPrivate && db.cameras[cameraId].owner == Some(user.id)
    && cameraId !in DirectIds(db, user) && !GroupReaches(db, user, cameraId)
  }

  lemma DirectGateOnPrivate(db: Db, user: User, cameraId: Id)
    requires cameraId in db.cameras && db.cameras[cameraId].isPrivate
    ensures CanViewCamera(db, user, cameraId) <==>
            db.cameras[cameraId].owner == Some(user.id) || cameraId in DirectIds(db, user)
  {
    if cameraId in DirectIds(db, user) {
      var p :| p in db.permissions && p.userId == user.id && p.cameraId == Some(cameraId);
      assert Weight(p.level) >= Weight(View);
    }
  }

  /**
    The live list and the live gate agree on every existing camera, for every user and every database,
    except on private cameras whose owner holds no row reaching them: those pass the gate and are not listed.
   */
  lemma AccessibleExactly(db: Db, user: User, cameraId: Id)
    requires cameraId in db.cameras
    ensures cameraId in GetAccessibleCameraIds(db, user) <==>
            CanViewCamera(db, user, cameraId) && !OwnedWithoutRow(db, user, cameraId)
  {
    MaxPermissionIsGrant(db, user, cameraId, View);
    if db.cameras[cameraId].isPrivate {
      DirectGateOnPrivate(db, user, cameraId);
    }
  }

  /** The history list and the history gate agree in the same way. */
  lemma PlaybackExactly(db: Db, user: User, cameraId: Id)
    requires cameraId in db.cameras
    ensures cameraId in GetPlaybackCameraIds(db, user) <==>
            CanPlaybackCamera(db, user, cameraId) && !OwnedWithoutRow(db, user, cameraId)
  {
    AccessibleExactly(db, user, cameraId);
  }

  /** Rows point to existing cameras, as the foreign keys enforce. */
  predicate ValidReferences(db: Db) {
    forall p | p in db.permissions :: p.cameraId.Some? ==> p.cameraId.value in db.cameras
  }

  /** With foreign keys in force every listed id is a camera that passes its gate. */
  lemma ListedIdsPass(db: Db, user: User, cameraId: Id)
    requires ValidReferences(db)
    ensures cameraId in GetAccessibleCameraIds(db, user) ==> cameraId in db.cameras && CanViewCamera(db, user, cameraId)
    ensures cameraId in GetPlaybackCameraIds(db, user) ==> cameraId in db.cameras && CanPlaybackCamera(db, user, cameraId)
  {
    if cameraId in db.cameras {
      AccessibleExactly(db, user, cameraId);
      PlaybackExactly(db, user, cameraId);
    }
  }

  // ---------------------------------------------------------------------------------------------
  // Privacy and commercial blocking
  // ---------------------------------------------------------------------------------------------

  /** No role opens a private camera: only its owner and holders of a direct row of the level do. */
  lemma PrivacyIgnoresRole(db: Db, user: User, role: Role, cameraId: Id, min: Level)
    requires cameraId in db.cameras && db.cameras[cameraId].isPrivate
    ensures CanUse(db, user.(role := role), cameraId, min) == CanUse(db, user, cameraId, min)
    ensures CanUse(db, user, cameraId, min) ==>
              db.cameras[cameraId].owner == Some(user.id) || cameraId in DirectIds(db, user)
  {
  }

  function WithStatus(db: Db, group: Id, status: AccessStatus): Db
    requires group in db.groups
  {
    db.(groups := db.groups[group := db.groups[group].(accessStatus := status)])
  }

  /** Where a row on the group is what lets the user in. */
  predicate OnlyThroughGroup(db: Db, user: User, cameraId: Id, group: Id)
    requires cameraId in db.cameras
  {
    && !IsPrivileged(user) && !db.cameras[cameraId].isPrivate
    && db.cameras[cameraId].group == Some(group) && cameraId !in DirectIds(db, user)
  }

  /** Suspending a group takes away exactly the live access that came through the group. */
  lemma SuspensionCutsExactly(db: Db, user: User, cameraId: Id, group: Id)
    requires cameraId in db.cameras && group in db.groups
    ensures CanViewCamera(WithStatus(db, group, Suspended), user, cameraId) <==>
            CanViewCamera(db, user, cameraId) && !OnlyThroughGroup(db, user, cameraId, group)
  {
    var after := WithStatus(db, group, Suspended);
    MaxPermissionIsGrant(db, user, cameraId, View);
    MaxPermissionIsGrant(after, user, cameraId, View);
    assert DirectIds(after, user) == DirectIds(db, user);
    assert GrantedGroupIds(after, user) == GrantedGroupIds(db, user);
  }

  /**
    Restricting a group leaves live access alone, or gives back what its suspension had taken; it takes the whole
    history of its cameras from ordinary users and touches no other camera's.
   */
  lemma RestrictionKeepsLive(db: Db, user: User, cameraId: Id, group: Id)
    requires cameraId in db.cameras && group in db.groups
    ensures var after := WithStatus(db, group, Restricted);
            && (CanViewCamera(db, user, cameraId) <==>
                  CanViewCamera(after, user, cameraId)
                  && !(db.groups[group].accessStatus == Suspended && OnlyThroughGroup(db, user, cameraId, group)))
            && (if db.cameras[cameraId].group == Some(group)
                then CanPlaybackCamera(after, user, cameraId) <==> CanViewCamera(after, user, cameraId) && IsPrivileged(user)
                else CanPlaybackCamera(after, user, cameraId) == CanPlaybackCamera(db, user, cameraId))
  {
    var after := WithStatus(db, group, Restricted);
    MaxPermissionIsGrant(db, user, cameraId, View);
    MaxPermissionIsGrant(after, user, cameraId, View);
    assert DirectIds(after, user) == DirectIds(db, user);
    assert GrantedGroupIds(after, user) == GrantedGroupIds(db, user);
  }
}
