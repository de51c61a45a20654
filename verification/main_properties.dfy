/**
 * What the projectapi handlers guarantee, stated over their `MainSpec`
 * semantics: the order of their checks, the role-tier rule of joins, the
 * at-most-one-like rule, and the store invariant every handler keeps.
 */
module MainProperties {
  import opened Outcomes
  import opened Db
  import opened Schema
  import opened MainSpec

  // ---- store invariant ----

  lemma CreateKeepsInv(st: DbState, pc: ProjectCreate, token: Option<string>, users: Users)
    requires Inv(st)
    ensures Inv(CreateProject(st, pc, token, users).after)
  {
    var username := Authenticate(token, users);
    if username.Some? && AllTagsExist(pc.skilltags, users) {
      CreatedKeepsInv(st, pc, username.value);
    }
  }

  lemma UpdateKeepsInv(st: DbState, upd: Project, token: Option<string>, users: Users)
    requires Inv(st)
    ensures Inv(UpdateProject(st, upd, token, users).after)
  {
    UpdatedKeepsInv(st, upd);
  }

  lemma DeleteKeepsInv(st: DbState, id: int, token: Option<string>, users: Users)
    requires Inv(st)
    ensures Inv(DeleteProject(st, id, token, users).after)
  {
  }

  lemma LikeKeepsInv(st: DbState, id: int, token: Option<string>, users: Users)
    requires Inv(st)
    ensures Inv(Like(st, id, token, users).after)
  {
    var o := Like(st, id, token, users);
    if o.response.Ok? {
      var username := Authenticate(token, users).value;
      NoDupAppend(st.likes, LikeRow(username, id));
    }
  }

  lemma UnlikeKeepsInv(st: DbState, id: int, token: Option<string>, users: Users)
    requires Inv(st)
    ensures Inv(Unlike(st, id, token, users).after)
  {
    var o := Unlike(st, id, token, users);
    if o.response.Ok? {
      WithoutLikesNoDup(st.likes, Authenticate(token, users).value, id);
    }
  }

  lemma JoinKeepsInv(st: DbState, projId: int, join: ProjectJoin, token: Option<string>, users: Users)
    requires Inv(st)
    ensures Inv(JoinMember(st, projId, join, token, users).after)
  {
  }

  // ---- join_member ----

  /**
   * The checks of a join, in order: token (401), target user (404, before
   * the project is looked up), project (404), acting admin (403); every
   * failure leaves the tables unchanged.
   */
  lemma JoinChecksInOrder(st: DbState, projId: int, join: ProjectJoin, token: Option<string>, users: Users)
    ensures var o := JoinMember(st, projId, join, token, users);
      var actor := Authenticate(token, users);
      && (actor.None? ==> o.response == Err(Unauthorized))
      && (actor.Some? && !users.exist(join.username) ==> o.response == Err(NotFound))
      && (actor.Some? && users.exist(join.username) && projId !in st.projects ==> o.response == Err(NotFound))
      && ((actor.Some? && users.exist(join.username) && projId in st.projects
           && actor.value !in st.projects[projId].adminUsers) ==> o.response == Err(Forbidden))
      && (o.response.Err? ==> o.after == st)
  {
  }

  /**
   * Once every earlier check passes, a join fails with 429 exactly when the
   * target already holds the requested tier; holding only an implied lower
   * tier is no conflict.
   */
  lemma JoinConflictIsExactTier(st: DbState, projId: int, join: ProjectJoin, token: Option<string>, users: Users)
    requires Authenticate(token, users).Some? && users.exist(join.username) && projId in st.projects
    requires Authenticate(token, users).value in st.projects[projId].adminUsers
    ensures var o := JoinMember(st, projId, join, token, users);
      var p := st.projects[projId];
      && (o.response == Err(TooManyRequests) <==>
           match join.kind
           case Member => join.username in p.members
           case Announce => join.username in p.announceUsers
           case Admin => join.username in p.adminUsers)
      && (o.response.Err? ==> o.response == Err(TooManyRequests))
  {
  }

  /** `s'` is `s`, or `s` with `u` appended when `s` lacked it. */
  ghost predicate GainsAtMost(s: seq<Username>, s': seq<Username>, u: Username) {
    && s <= s'
    && |s'| <= |s| + 1
    && (forall x | x in s' :: x in s || x == u)
    && (u in s ==> s' == s)
  }

  /**
   * A successful join puts the target in `members` at every tier, also in
   * `announce_users` at ANNOUNCE and ADMIN, and in `admin_users` only at
   * ADMIN; each list gains at most the target, appended once; nothing else
   * in the project, no other project and no like fact changes.
   */
  lemma JoinPlacesTarget(st: DbState, projId: int, join: ProjectJoin, token: Option<string>, users: Users)
    requires JoinMember(st, projId, join, token, users).response.Ok?
    ensures var o := JoinMember(st, projId, join, token, users);
      var u := join.username;
      && projId in st.projects && projId in o.after.projects
      && var p := st.projects[projId];
      && var p' := o.after.projects[projId];
      && u in p'.members
      && (join.kind != Member ==> u in p'.announceUsers)
      && (u in p'.adminUsers <==> join.kind == Admin || u in p.adminUsers)
      && GainsAtMost(p.members, p'.members, u)
      && GainsAtMost(p.announceUsers, p'.announceUsers, u)
      && GainsAtMost(p.adminUsers, p'.adminUsers, u)
      && (join.kind == Member ==> p'.announceUsers == p.announceUsers)
      && (join.kind != Admin ==> p'.adminUsers == p.adminUsers)
      && p'.(members := p.members, announceUsers := p.announceUsers, adminUsers := p.adminUsers) == p
      && o.after.likes == st.likes && o.after.nextId == st.nextId
      && o.after.projects.Keys == st.projects.Keys
      && (forall id | id in st.projects && id != projId :: o.after.projects[id] == st.projects[id])
  {
    var u := join.username;
    var p := st.projects[projId];
    var p1 := p.(members := AddIfAbsent(p.members, u));
    var p2 := if join.kind != Member then p1.(announceUsers := AddIfAbsent(p1.announceUsers, u)) else p1;
    assert GainsAtMost(p.members, AddIfAbsent(p.members, u), u);
    assert GainsAtMost(p.announceUsers, p2.announceUsers, u);
    assert GainsAtMost(p.adminUsers, Joined(p, u, join.kind).adminUsers, u);
  }

  /**
   * Repeating a successful join, same acting user, same target, same tier,
   * is refused with 429 and changes nothing.
   */
  lemma JoinTwiceConflicts(st: DbState, projId: int, join: ProjectJoin, token: Option<string>, users: Users)
    requires JoinMember(st, projId, join, token, users).response.Ok?
    ensures var st1 := JoinMember(st, projId, join, token, users).after;
      JoinMember(st1, projId, join, token, users) == Outcome(Err(TooManyRequests), st1)
  {
    JoinPlacesTarget(st, projId, join, token, users);
  }

  /**
   * Joining keeps a project's roles nested and duplicate-free, whichever
   * tier is requested.
   */
  lemma JoinKeepsRolesNested(st: DbState, projId: int, join: ProjectJoin, token: Option<string>, users: Users)
    requires projId in st.projects && RolesNested(st.projects[projId])
    ensures var o := JoinMember(st, projId, join, token, users);
      projId in o.after.projects && RolesNested(o.after.projects[projId])
  {
  }

  // ---- like / unlike ----

  /**
   * The checks of a like, in order: token (401), project (404), an existing
   * fact (429). On success exactly one fact for the pair is appended, so the
   * pair has exactly one fact.
   */
  lemma LikeOutcomes(st: DbState, id: int, token: Option<string>, users: Users)
    requires Inv(st)
    ensures var o := Like(st, id, token, users);
      var actor := Authenticate(token, users);
      && (actor.None? ==> o.response == Err(Unauthorized))
      && (actor.Some? && id !in st.projects ==> o.response == Err(NotFound))
      && (actor.Some? && id in st.projects ==>
            (o.response == Err(TooManyRequests) <==> LikeRow(actor.value, id) in st.likes))
      && (o.response.Ok? ==>
            && o.after.likes == st.likes + [LikeRow(actor.value, id)]
            && o.after.projects == st.projects
            && CountLikes(o.after.likes, actor.value, id) == 1)
  {
    var o := Like(st, id, token, users);
    var actor := Authenticate(token, users);
    if o.response.Ok? {
      CountLikesAppend(st.likes, LikeRow(actor.value, id), actor.value, id);
    }
  }

  /**
   * The checks of an unlike: token (401), then a missing fact (429), with
   * no project lookup; an unlike passing both succeeds. On success every
   * fact for the pair is gone and every other fact stays.
   */
  lemma UnlikeOutcomes(st: DbState, id: int, token: Option<string>, users: Users)
    ensures var o := Unlike(st, id, token, users);
      var actor := Authenticate(token, users);
      && (actor.None? ==> o.response == Err(Unauthorized))
      && (actor.Some? ==> (o.response == Err(TooManyRequests) <==> LikeRow(actor.value, id) !in st.likes))
      && (o.response.Ok? <==> actor.Some? && LikeRow(actor.value, id) in st.likes)
      && (o.response.Ok? ==>
            && CountLikes(o.after.likes, actor.value, id) == 0
            && (forall f :: f in o.after.likes <==> f in st.likes && f != LikeRow(actor.value, id))
            && o.after.projects == st.projects)
  {
  }

  /**
   * An unlike never consults the project table: its response and its like
   * table are the same whatever projects exist, a missing project included.
   */
  lemma UnlikeIgnoresProjects(st: DbState, projects: map<int, ProjectRow>, id: int, token: Option<string>, users: Users)
    ensures var o := Unlike(st, id, token, users);
      var o' := Unlike(st.(projects := projects), id, token, users);
      o'.response == o.response && o'.after.likes == o.after.likes
  {
  }

  /** A second like by the same user on the same project is refused with 429. */
  lemma LikeTwiceConflicts(st: DbState, id: int, token: Option<string>, users: Users)
    requires Inv(st)
    requires Like(st, id, token, users).response.Ok?
    ensures var st1 := Like(st, id, token, users).after;
      Like(st1, id, token, users) == Outcome(Err(TooManyRequests), st1)
  {
  }

  /**
   * Like, unlike, like again: all three succeed, and the pair ends with
   * exactly one fact.
   */
  lemma LikeUnlikeLike(st: DbState, id: int, token: Option<string>, users: Users)
    requires Inv(st)
    requires Authenticate(token, users).Some? && id in st.projects
    requires LikeRow(Authenticate(token, users).value, id) !in st.likes
    ensures var o1 := Like(st, id, token, users);
      var o2 := Unlike(o1.after, id, token, users);
      var o3 := Like(o2.after, id, token, users);
      && o1.response.Ok? && o2.response.Ok? && o3.response.Ok?
      && CountLikes(o3.after.likes, Authenticate(token, users).value, id) == 1
  {
    var o1 := Like(st, id, token, users);
    var u := Authenticate(token, users).value;
    LikeKeepsInv(st, id, token, users);
    CountLikesAppend(st.likes, LikeRow(u, id), u, id);
    var o2 := Unlike(o1.after, id, token, users);
    UnlikeKeepsInv(o1.after, id, token, users);
    LikeOutcomes(o2.after, id, token, users);
  }

  /**
   * Under the store invariant the like count a project shows is the number
   * of distinct users who like it, and as many users as `get_likes` lists.
   */
  lemma LikeCountNoDrift(st: DbState, id: int)
    requires Inv(st) && id in st.projects
    ensures GetProject(st, id).Ok? && GetLikes(st, id).Ok?
    ensures GetProject(st, id).value.likes
         == |set f | f in st.likes && f.projectId == id :: f.username|
         == |GetLikes(st, id).value.users|
  {
    LikeCountIsCardinality(st.projects[id], st.likes);
  }

  // ---- delete_project ----

  /**
   * The checks of a delete, in order: project (404, before any token
   * check), token (401), acting admin (403). Success changes only the
   * project's `is_active`, to false; its roles and the like facts remain.
   */
  lemma DeleteOutcomes(st: DbState, id: int, token: Option<string>, users: Users)
    ensures var o := DeleteProject(st, id, token, users);
      var actor := Authenticate(token, users);
      && (id !in st.projects ==> o.response == Err(NotFound))
      && (id in st.projects && actor.None? ==> o.response == Err(Unauthorized))
      && (id in st.projects && actor.Some? && actor.value !in st.projects[id].adminUsers
          ==> o.response == Err(Forbidden))
      && (o.response.Ok? <==> id in st.projects && actor.Some? && actor.value in st.projects[id].adminUsers)
      && (o.response.Ok? ==>
            && o.after.projects == st.projects[id := st.projects[id].(isActive := false)]
            && o.after.likes == st.likes && o.after.nextId == st.nextId)
  {
  }

  /**
   * A deleted project is still served by `get_project` and `get_likes`,
   * with its roles and like count as before: neither checks `is_active`.
   */
  lemma DeletedStillReadable(st: DbState, id: int, token: Option<string>, users: Users)
    requires DeleteProject(st, id, token, users).response.Ok?
    ensures var st' := DeleteProject(st, id, token, users).after;
      && GetProject(st', id).Ok? && GetLikes(st', id) == GetLikes(st, id)
      && GetProject(st', id).value == GetProject(st, id).value
  {
  }

  // ---- create_project / update_project ----

  /**
   * The checks of a create, in order: token (401), then skill tags (404);
   * a create passing both succeeds and creates the project under the fresh id.
   */
  lemma CreateOutcomes(st: DbState, pc: ProjectCreate, token: Option<string>, users: Users)
    ensures var o := CreateProject(st, pc, token, users);
      var actor := Authenticate(token, users);
      && (actor.None? ==> o.response == Err(Unauthorized))
      && (actor.Some? && !AllTagsExist(pc.skilltags, users) ==> o.response == Err(NotFound))
      && (o.response.Ok? <==> actor.Some? && AllTagsExist(pc.skilltags, users))
      && (o.response.Ok? ==>
            && o.after.projects.Keys == st.projects.Keys + {st.nextId}
            && o.after.nextId == st.nextId + 1)
  {
  }

  /**
   * A create fails with 404, creating nothing, when any skill tag is
   * unknown to the tag service.
   */
  lemma CreateRejectsUnknownTag(st: DbState, pc: ProjectCreate, token: Option<string>, users: Users, i: int)
    requires Authenticate(token, users).Some?
    requires 0 <= i < |pc.skilltags| && !users.tagExist(pc.skilltags[i])
    ensures CreateProject(st, pc, token, users) == Outcome(Err(NotFound), st)
  {
  }

  /**
   * A successful create adds one project under the fresh id, with the
   * creator as sole member, announce user and admin; reading it back gives
   * the request's metadata, SNS links and skill tags, and no likes.
   */
  lemma CreateThenGet(st: DbState, pc: ProjectCreate, token: Option<string>, users: Users)
    requires Inv(st)
    requires CreateProject(st, pc, token, users).response.Ok?
    ensures var o := CreateProject(st, pc, token, users);
      var u := Authenticate(token, users).value;
      var id := st.nextId;
      && id !in st.projects && o.after.projects.Keys == st.projects.Keys + {id}
      && var p := o.after.projects[id];
      && p.members == [u] && p.announceUsers == [u] && p.adminUsers == [u] && p.isActive
      && GetProject(o.after, id) == Ok(o.response.value)
      && var v := o.response.value;
      && v.id == id && v.title == pc.title && v.subtitle == pc.subtitle && v.bgImage == pc.bgImage
      && v.description == pc.description && v.sns == pc.sns && v.skilltags == pc.skilltags
      && v.likes == 0
  {
    var u := Authenticate(token, users).value;
    CreateRoundTrip(pc, u, st.nextId, st.likes);
  }

  /**
   * The checks of an update, in order: token (401), project (404), acting
   * admin (403), skill tags (404); an update passing all four succeeds.
   * On success the returned view carries the
   * request's metadata with the project's own roles and like count, and is
   * what `get_project` then reads back.
   */
  lemma UpdateOutcomes(st: DbState, upd: Project, token: Option<string>, users: Users)
    ensures var o := UpdateProject(st, upd, token, users);
      var actor := Authenticate(token, users);
      && (actor.None? ==> o.response == Err(Unauthorized))
      && (actor.Some? && upd.id !in st.projects ==> o.response == Err(NotFound))
      && (actor.Some? && upd.id in st.projects && actor.value !in st.projects[upd.id].adminUsers
          ==> o.response == Err(Forbidden))
      && ((actor.Some? && upd.id in st.projects && actor.value in st.projects[upd.id].adminUsers
           && !AllTagsExist(upd.skilltags, users)) ==> o.response == Err(NotFound))
      && (o.response.Ok? <==>
            && actor.Some? && upd.id in st.projects && actor.value in st.projects[upd.id].adminUsers
            && AllTagsExist(upd.skilltags, users))
      && (o.response.Ok? ==>
            var p := st.projects[upd.id];
            var v := o.response.value;
            && v.title == upd.title && v.subtitle == upd.subtitle && v.bgImage == upd.bgImage
            && v.description == upd.description && v.sns == upd.sns && v.skilltags == upd.skilltags
            && v.id == p.id && v.members == p.members && v.announceUsers == p.announceUsers
            && v.adminUsers == p.adminUsers && v.likes == FromDb(p, st.likes).likes
            && o.after.projects[upd.id].isActive == p.isActive
            && GetProject(o.after, upd.id) == o.response)
  {
    if upd.id in st.projects {
      UpdateView(st.projects[upd.id], upd, st.likes);
    }
  }

  // ---- projects_of_user ----

  /** Every listed view is that of an active project with the user among its members. */
  lemma {:induction false} ActiveProjectsBelowSound(st: DbState, username: Username, n: nat)
    requires KeyedById(st)
    ensures forall v | v in ActiveProjectsBelow(st, username, n) ::
      && 0 <= v.id < n && v.id in st.projects
      && st.projects[v.id].isActive && username in st.projects[v.id].members
      && v == FromDb(st.projects[v.id], st.likes)
  {
    if n > 0 {
      ActiveProjectsBelowSound(st, username, n - 1);
      if n - 1 in st.projects {
        assert st.projects[n - 1].id == n - 1;
      }
    }
  }

  /** Every active project with the user among its members is listed. */
  lemma {:induction false} ActiveProjectsBelowComplete(st: DbState, username: Username, n: nat, id: int)
    requires 0 <= id < n && id in st.projects && st.projects[id].isActive && username in st.projects[id].members
    ensures FromDb(st.projects[id], st.likes) in ActiveProjectsBelow(st, username, n)
  {
    ActiveProjectsBelowGrows(st, username, n);
    if id < n - 1 {
      ActiveProjectsBelowComplete(st, username, n - 1, id);
      PrefixKeepsMembers(ActiveProjectsBelow(st, username, n - 1), ActiveProjectsBelow(st, username, n),
                         FromDb(st.projects[id], st.likes));
    }
  }

  /** An element of a prefix is an element of the whole sequence. */
  lemma PrefixKeepsMembers<T>(a: seq<T>, b: seq<T>, x: T)
    requires a <= b && x in a
    ensures x in b
  {
    var i :| 0 <= i < |a| && a[i] == x;
    assert b[i] == x;
  }

  /** Each view has a larger id than the ones before it, so no project repeats. */
  ghost predicate IdsAscending(r: seq<Project>) {
    forall i, j | 0 <= i < j < |r| :: r[i].id < r[j].id
  }

  lemma {:induction false} ActiveProjectsBelowIdsBelow(st: DbState, username: Username, n: nat)
    requires KeyedById(st)
    ensures forall v | v in ActiveProjectsBelow(st, username, n) :: v.id < n
  {
    if n > 0 {
      ActiveProjectsBelowIdsBelow(st, username, n - 1);
      if n - 1 in st.projects {
        assert st.projects[n - 1].id == n - 1;
      }
    }
  }

  /**
   * One step of the scan: the list below `n` is the list below `n - 1`,
   * followed by project `n - 1`'s view exactly when that project is listed.
   */
  lemma ActiveProjectsBelowGrows(st: DbState, username: Username, n: nat)
    requires n > 0
    ensures var r0 := ActiveProjectsBelow(st, username, n - 1);
      var r := ActiveProjectsBelow(st, username, n);
      && r0 <= r
      && (|r| > |r0| <==> n - 1 in st.projects && st.projects[n - 1].isActive && username in st.projects[n - 1].members)
      && (|r| > |r0| ==> |r| == |r0| + 1 && r[|r0|] == FromDb(st.projects[n - 1], st.likes)
                         && FromDb(st.projects[n - 1], st.likes) in r)
      && (|r| <= |r0| ==> r == r0)
  {
  }

  /** One step of the scan: the list below `n` extends the one below `n - 1` by at most project `n - 1`. */
  lemma ActiveProjectsBelowStep(st: DbState, username: Username, n: nat)
    requires KeyedById(st) && n > 0
    ensures var r0 := ActiveProjectsBelow(st, username, n - 1);
      var r := ActiveProjectsBelow(st, username, n);
      && r0 <= r && |r| <= |r0| + 1
      && (|r| > |r0| ==> r[|r0|].id == n - 1)
  {
    if n - 1 in st.projects {
      assert st.projects[n - 1].id == n - 1;
    }
  }

  /** Appending a view whose id exceeds every earlier one keeps ids ascending. */
  lemma AscendingExtend(r0: seq<Project>, r: seq<Project>, top: int)
    requires IdsAscending(r0) && (forall v | v in r0 :: v.id < top)
    requires r0 <= r && |r| <= |r0| + 1 && (|r| > |r0| ==> r[|r0|].id == top)
    ensures IdsAscending(r)
  {
    forall i, j | 0 <= i < j < |r| ensures r[i].id < r[j].id {
      assert r[i] == r0[i] && r0[i] in r0;
      if j < |r0| {
        assert r[j] == r0[j];
      }
    }
  }

  /** The listed views are in strictly ascending id order. */
  lemma {:induction false} ActiveProjectsBelowAscending(st: DbState, username: Username, n: nat)
    requires KeyedById(st)
    ensures IdsAscending(ActiveProjectsBelow(st, username, n))
  {
    if n > 0 {
      ActiveProjectsBelowAscending(st, username, n - 1);
      ActiveProjectsBelowIdsBelow(st, username, n - 1);
      ActiveProjectsBelowStep(st, username, n);
      AscendingExtend(ActiveProjectsBelow(st, username, n - 1), ActiveProjectsBelow(st, username, n), n - 1);
    }
  }

  /**
   * `projects_of_user` lists exactly the active projects whose members
   * include the user, each once, in id order.
   */
  lemma ProjectsOfUserExact(st: DbState, username: Username)
    requires KeyedById(st)
    ensures forall v | v in ProjectsOfUser(st, username) ::
      && v.id in st.projects && st.projects[v.id].isActive && username in st.projects[v.id].members
      && v == FromDb(st.projects[v.id], st.likes)
    ensures forall id | id in st.projects && st.projects[id].isActive && username in st.projects[id].members ::
      FromDb(st.projects[id], st.likes) in ProjectsOfUser(st, username)
    ensures IdsAscending(ProjectsOfUser(st, username))
  {
    ActiveProjectsBelowSound(st, username, st.nextId);
    ActiveProjectsBelowAscending(st, username, st.nextId);
    assert ProjectsOfUser(st, username) == ActiveProjectsBelow(st, username, st.nextId);
    forall id | id in st.projects && st.projects[id].isActive && username in st.projects[id].members
      ensures FromDb(st.projects[id], st.likes) in ProjectsOfUser(st, username)
    {
      ActiveProjectsBelowComplete(st, username, st.nextId, id);
    }
  }
}
