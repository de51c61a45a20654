/**
 * The decision logic of the projectapi handlers, as functions from a
 * snapshot of the tables to the response and the tables afterwards. Each
 * handler checks its error conditions in the order the service does, and
 * every failure leaves the tables as they were.
 */
module MainSpec {
  import opened Outcomes
  import opened Db
  import opened Schema

  /**
   * The user-service calls the handlers make: `auth` resolves a token to a
   * username, `exist` says whether a user exists, `tagExist` whether a skill
   * tag exists. They are foreign calls, so they are parameters here.
   */
  datatype Users = Users(auth: string -> Option<Username>, exist: Username -> bool, tagExist: int -> bool)

  /** A handler's response and the tables once it has run. */
  datatype Outcome<+T> = Outcome(response: Result<T>, after: DbState)

  /** The acting user: none when the cookie is missing or the token is rejected. */
  function Authenticate(token: Option<string>, users: Users): (u: Option<Username>)
    ensures token.None? ==> u.None?
  {
    match token
    case None => None
    case Some(t) => users.auth(t)
  }

  /** Every index of `tags` holds an existing tag exactly when every member of `tags` does. */
  lemma TagIndexMembership(tags: seq<int>, users: Users)
    ensures (forall i | 0 <= i < |tags| :: users.tagExist(tags[i]))
        <==> (forall t | t in tags :: users.tagExist(t))
  {
    if forall t | t in tags :: users.tagExist(t) {
      forall i | 0 <= i < |tags| ensures users.tagExist(tags[i]) {
        assert tags[i] in tags;
      }
    }
  }

  /** The skill-tag check: it passes exactly when every listed tag exists. */
  predicate AllTagsExist(tags: seq<int>, users: Users): (b: bool)
    ensures b <==> forall t | t in tags :: users.tagExist(t)
  {
    TagIndexMembership(tags, users);
    forall i | 0 <= i < |tags| :: users.tagExist(tags[i])
  }

  /** `get_project`: the view of the project, active or not. */
  function GetProject(st: DbState, id: int): (r: Result<Project>)
    ensures r.Err? <==> id !in st.projects
    ensures r.Err? ==> r.status == NotFound
  {
    if id !in st.projects then Err(NotFound) else Ok(FromDb(st.projects[id], st.likes))
  }

  /** `create_project`: authenticate, check every skill tag, then create. */
  function CreateProject(st: DbState, pc: ProjectCreate, token: Option<string>, users: Users): (o: Outcome<Project>)
    ensures o.response.Err? ==> o.after == st
  {
    match Authenticate(token, users)
    case None => Outcome(Err(Unauthorized), st)
    case Some(username) =>
      if !AllTagsExist(pc.skilltags, users) then Outcome(Err(NotFound), st)
      else Outcome(Ok(FromDb(NewRow(pc, username, st.nextId), st.likes)), Created(st, pc, username))
  }

  /**
   * `update_project`: authenticate, find the project, require an admin,
   * check the skill tags, then overwrite the metadata.
   */
  function UpdateProject(st: DbState, upd: Project, token: Option<string>, users: Users): (o: Outcome<Project>)
    ensures o.response.Err? ==> o.after == st
  {
    match Authenticate(token, users)
    case None => Outcome(Err(Unauthorized), st)
    case Some(username) =>
      if upd.id !in st.projects then Outcome(Err(NotFound), st)
      else if username !in st.projects[upd.id].adminUsers then Outcome(Err(Forbidden), st)
      else if !AllTagsExist(upd.skilltags, users) then Outcome(Err(NotFound), st)
      else
        var st' := Updated(st, upd);
        Outcome(Ok(FromDb(st'.projects[upd.id], st'.likes)), st')
  }

  /**
   * `delete_project`: find the project first, then authenticate, then
   * require an admin; success only clears `is_active`.
   */
  function DeleteProject(st: DbState, id: int, token: Option<string>, users: Users): (o: Outcome<()>)
    ensures o.response.Err? ==> o.after == st
  {
    if id !in st.projects then Outcome(Err(NotFound), st)
    else match Authenticate(token, users)
    case None => Outcome(Err(Unauthorized), st)
    case Some(username) =>
      var p := st.projects[id];
      if username !in p.adminUsers then Outcome(Err(Forbidden), st)
      else Outcome(Ok(()), st.(projects := st.projects[id := p.(isActive := false)]))
  }

  /** `get_likes`: the users who like the project, active or not. */
  function GetLikes(st: DbState, id: int): (r: Result<Likes>)
    ensures r.Err? <==> id !in st.projects
    ensures r.Err? ==> r.status == NotFound
  {
    if id !in st.projects then Err(NotFound) else Ok(GetFromProject(st.projects[id], st.likes))
  }

  /** `like`: authenticate, find the project, refuse a second like, add the fact. */
  function Like(st: DbState, id: int, token: Option<string>, users: Users): (o: Outcome<()>)
    ensures o.response.Err? ==> o.after == st
  {
    match Authenticate(token, users)
    case None => Outcome(Err(Unauthorized), st)
    case Some(username) =>
      if id !in st.projects then Outcome(Err(NotFound), st)
      else if CountLikes(st.likes, username, id) > 0 then Outcome(Err(TooManyRequests), st)
      else Outcome(Ok(()), st.(likes := st.likes + [LikeRow(username, st.projects[id].id)]))
  }

  /**
   * `unlike`: authenticate, refuse when there is no fact to remove, then
   * delete every fact for the pair. The project table is never consulted.
   */
  function Unlike(st: DbState, id: int, token: Option<string>, users: Users): (o: Outcome<()>)
    ensures o.response.Err? ==> o.after == st
  {
    match Authenticate(token, users)
    case None => Outcome(Err(Unauthorized), st)
    case Some(username) =>
      if CountLikes(st.likes, username, id) < 1 then Outcome(Err(TooManyRequests), st)
      else Outcome(Ok(()), st.(likes := WithoutLikes(st.likes, username, id)))
  }

  /** The role list a join at `kind` checks for a conflict. */
  function TierUsers(p: ProjectRow, kind: MemberType): (r: seq<Username>)
    ensures RolesNested(p) ==> NoDup(r) && forall u | u in r :: u in p.members
    ensures RolesNested(p) ==> forall u | u in p.adminUsers :: u in r
  {
    match kind
    case Member => p.members
    case Announce => p.announceUsers
    case Admin => p.adminUsers
  }

  /** Append `u` to a role list unless it is already there. */
  function AddIfAbsent(s: seq<Username>, u: Username): (r: seq<Username>)
    ensures forall x :: x in r <==> x in s || x == u
    ensures NoDup(s) ==> NoDup(r)
    ensures u in s ==> r == s
  {
    if u in s then s
    else
      assert NoDup(s) ==> NoDup(s + [u]) by {
        if NoDup(s) { NoDupAppend(s, u); }
      }
      s + [u]
  }

  /**
   * The row after joining `u` at `kind`: every tier up to `kind` gains `u`,
   * skipping any tier that already holds it.
   */
  function Joined(p: ProjectRow, u: Username, kind: MemberType): (p': ProjectRow)
    ensures p'.id == p.id && p'.isActive == p.isActive
    ensures RolesNested(p) ==> RolesNested(p')
  {
    var p1 := p.(members := AddIfAbsent(p.members, u));
    var p2 := if kind != Member then p1.(announceUsers := AddIfAbsent(p1.announceUsers, u)) else p1;
    if kind == Admin then p2.(adminUsers := AddIfAbsent(p2.adminUsers, u)) else p2
  }

  /**
   * `join_member`: authenticate, check the target user exists, find the
   * project, require an admin, refuse a duplicate at the exact tier, then
   * join.
   */
  function JoinMember(st: DbState, projId: int, join: ProjectJoin, token: Option<string>, users: Users): (o: Outcome<()>)
    ensures o.response.Err? ==> o.after == st
  {
    match Authenticate(token, users)
    case None => Outcome(Err(Unauthorized), st)
    case Some(username) =>
      if !users.exist(join.username) then Outcome(Err(NotFound), st)
      else if projId !in st.projects then Outcome(Err(NotFound), st)
      else
        var p := st.projects[projId];
        if username !in p.adminUsers then Outcome(Err(Forbidden), st)
        else if join.username in TierUsers(p, join.kind) then Outcome(Err(TooManyRequests), st)
        else Outcome(Ok(()), st.(projects := st.projects[projId := Joined(p, join.username, join.kind)]))
  }

  /**
   * The views of the active projects with an id below `n` whose members
   * include `username`, in ascending id order.
   */
  function ActiveProjectsBelow(st: DbState, username: Username, n: nat): (r: seq<Project>)
    ensures |r| <= n
    ensures forall i | 0 <= i < |r| :: username in r[i].members
  {
    if n == 0 then []
    else
      var id := n - 1;
      ActiveProjectsBelow(st, username, id)
      + (if id in st.projects && st.projects[id].isActive && username in st.projects[id].members
         then [FromDb(st.projects[id], st.likes)] else [])
  }

  /** `projects_of_user`: the active projects the user is a member of. */
  function ProjectsOfUser(st: DbState, username: Username): (r: seq<Project>)
    ensures |r| <= st.nextId
    ensures forall i | 0 <= i < |r| :: username in r[i].members
  {
    ActiveProjectsBelow(st, username, st.nextId)
  }
}
