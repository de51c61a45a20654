/**
 * The projectapi handlers, run against the store. Each is proved to give
 * the response, and leave the tables, that its counterpart in `MainSpec`
 * describes, and to keep the store invariant.
 */
module Main {
  import opened Outcomes
  import opened Db
  import opened Schema
  import MainSpec
  import MainProperties

  type Users = MainSpec.Users

  /**
   * `get_project`: 404 exactly for an unknown id, whether or not the project
   * is active; otherwise the stored row's metadata and roles, with a like
   * count equal to the number of distinct users who like the project.
   */
  method GetProject(db: Store, id: int) returns (r: Result<Project>)
    requires db.Valid()
    ensures r.Err? <==> id !in db.projects
    ensures r.Err? ==> r.status == NotFound
    ensures r.Ok? ==>
      var p := db.projects[id];
      && r.value.id == id && r.value.title == p.title && r.value.subtitle == p.subtitle
      && r.value.bgImage == p.bgImage && r.value.description == p.description
      && r.value.sns == p.sns && r.value.skilltags == p.skilltags
      && r.value.members == p.members && r.value.announceUsers == p.announceUsers
      && r.value.adminUsers == p.adminUsers
      && r.value.likes == |set f | f in db.likes && f.projectId == id :: f.username|
    ensures r == MainSpec.GetProject(db.State(), id)
  {
    if id !in db.projects {
      return Err(NotFound);
    }
    LikeCountIsCardinality(db.projects[id], db.likes);
    r := Ok(FromDb(db.projects[id], db.likes));
  }

  /** The tag check: every `tag_exist` call is made, then any False rejects. */
  method TagsExist(tags: seq<int>, users: Users) returns (ok: bool)
    ensures ok <==> MainSpec.AllTagsExist(tags, users)
  {
    ok := true;
    var i := 0;
    while i < |tags|
      invariant 0 <= i <= |tags|
      invariant ok <==> forall k | 0 <= k < i :: users.tagExist(tags[k])
    {
      if !users.tagExist(tags[i]) {
        ok := false;
      }
      i := i + 1;
    }
  }

  /** `create_project`. */
  method CreateProject(db: Store, pc: ProjectCreate, token: Option<string>, users: Users)
    returns (r: Result<Project>)
    requires db.Valid()
    modifies db
    ensures db.Valid()
    ensures var o := MainSpec.CreateProject(old(db.State()), pc, token, users);
      r == o.response && db.State() == o.after
  {
    if token.None? {
      return Err(Unauthorized);
    }
    var username := users.auth(token.value);
    if username.None? {
      return Err(Unauthorized);
    }
    var tagsOk := TagsExist(pc.skilltags, users);
    if !tagsOk {
      return Err(NotFound);
    }
    var v := Create(db, pc, username.value);
    r := Ok(v);
  }

  /** `update_project`. */
  method UpdateProject(db: Store, upd: Project, token: Option<string>, users: Users)
    returns (r: Result<Project>)
    requires db.Valid()
    modifies db
    ensures db.Valid()
    ensures var o := MainSpec.UpdateProject(old(db.State()), upd, token, users);
      r == o.response && db.State() == o.after
  {
    if token.None? {
      return Err(Unauthorized);
    }
    var username := users.auth(token.value);
    if username.None? {
      return Err(Unauthorized);
    }
    if upd.id !in db.projects {
      return Err(NotFound);
    }
    if username.value !in db.projects[upd.id].adminUsers {
      return Err(Forbidden);
    }
    var tagsOk := TagsExist(upd.skilltags, users);
    if !tagsOk {
      return Err(NotFound);
    }
    var result := Update(db, upd);
    match result
    case None =>
      r := Err(NotFound);
    case Some(v) =>
      r := Ok(v);
  }

  /** `delete_project`. */
  method DeleteProject(db: Store, id: int, token: Option<string>, users: Users) returns (r: Result<()>)
    requires db.Valid()
    modifies db
    ensures db.Valid()
    ensures var o := MainSpec.DeleteProject(old(db.State()), id, token, users);
      r == o.response && db.State() == o.after
  {
    ghost var st := db.State();
    if id !in db.projects {
      return Err(NotFound);
    }
    var p := db.projects[id];
    if token.None? {
      return Err(Unauthorized);
    }
    var username := users.auth(token.value);
    if username.None? {
      return Err(Unauthorized);
    }
    if username.value !in p.adminUsers {
      return Err(Forbidden);
    }
    p := p.(isActive := false);
    db.projects := db.projects[id := p];
    MainProperties.DeleteKeepsInv(st, id, token, users);
    r := Ok(());
  }

  /**
   * `get_likes`: 404 exactly for an unknown id; otherwise every user with a
   * like fact for the project, each once, as many as `get_project`'s like
   * count.
   */
  method GetLikes(db: Store, id: int) returns (r: Result<Likes>)
    requires db.Valid()
    ensures r.Err? <==> id !in db.projects
    ensures r.Err? ==> r.status == NotFound
    ensures r.Ok? ==> forall u :: u in r.value.users <==> LikeRow(u, id) in db.likes
    ensures r.Ok? ==> NoDup(r.value.users)
    ensures r.Ok? ==> |r.value.users| == FromDb(db.projects[id], db.likes).likes
    ensures r == MainSpec.GetLikes(db.State(), id)
  {
    if id !in db.projects {
      return Err(NotFound);
    }
    LikersDistinct(db.likes, id);
    r := Ok(GetFromProject(db.projects[id], db.likes));
  }

  /** `like`. */
  method Like(db: Store, id: int, token: Option<string>, users: Users) returns (r: Result<()>)
    requires db.Valid()
    modifies db
    ensures db.Valid()
    ensures var o := MainSpec.Like(old(db.State()), id, token, users);
      r == o.response && db.State() == o.after
  {
    ghost var st := db.State();
    if token.None? {
      return Err(Unauthorized);
    }
    var username := users.auth(token.value);
    if username.None? {
      return Err(Unauthorized);
    }
    if id !in db.projects {
      return Err(NotFound);
    }
    var p := db.projects[id];
    if CountLikes(db.likes, username.value, id) > 0 {
      return Err(TooManyRequests);
    }
    db.likes := db.likes + [LikeRow(username.value, p.id)];
    MainProperties.LikeKeepsInv(st, id, token, users);
    r := Ok(());
  }

  /** `unlike`. */
  method Unlike(db: Store, id: int, token: Option<string>, users: Users) returns (r: Result<()>)
    requires db.Valid()
    modifies db
    ensures db.Valid()
    ensures var o := MainSpec.Unlike(old(db.State()), id, token, users);
      r == o.response && db.State() == o.after
  {
    ghost var st := db.State();
    if token.None? {
      return Err(Unauthorized);
    }
    var username := users.auth(token.value);
    if username.None? {
      return Err(Unauthorized);
    }
    if CountLikes(db.likes, username.value, id) < 1 {
      return Err(TooManyRequests);
    }
    db.likes := WithoutLikes(db.likes, username.value, id);
    MainProperties.UnlikeKeepsInv(st, id, token, users);
    r := Ok(());
  }

  /** `join_member`. */
  method JoinMember(db: Store, projId: int, join: ProjectJoin, token: Option<string>, users: Users)
    returns (r: Result<()>)
    requires db.Valid()
    modifies db
    ensures db.Valid()
    ensures var o := MainSpec.JoinMember(old(db.State()), projId, join, token, users);
      r == o.response && db.State() == o.after
  {
    ghost var st := db.State();
    if token.None? {
      return Err(Unauthorized);
    }
    var username := users.auth(token.value);
    if username.None? {
      return Err(Unauthorized);
    }
    if !users.exist(join.username) {
      return Err(NotFound);
    }
    if projId !in db.projects {
      return Err(NotFound);
    }
    var p := db.projects[projId];
    if username.value !in p.adminUsers {
      return Err(Forbidden);
    }
    // already joined at the exact tier?
    match join.kind {
      case Member =>
        if join.username in p.members {
          return Err(TooManyRequests);
        }
      case Announce =>
        if join.username in p.announceUsers {
          return Err(TooManyRequests);
        }
      case Admin =>
        if join.username in p.adminUsers {
          return Err(TooManyRequests);
        }
    }
    // member, announce and admin joins all reach the member tier
    if join.username !in p.members {
      p := p.(members := p.members + [join.username]);
    }
    // announce and admin joins
    if join.kind != Member && join.username !in p.announceUsers {
      p := p.(announceUsers := p.announceUsers + [join.username]);
    }
    // admin joins
    if join.kind == Admin && join.username !in p.adminUsers {
      p := p.(adminUsers := p.adminUsers + [join.username]);
    }
    db.projects := db.projects[projId := p];
    MainProperties.JoinKeepsInv(st, projId, join, token, users);
    r := Ok(());
  }

  /** `projects_of_user`: one pass over the projects in id order. */
  method ProjectsOfUser(db: Store, username: Username) returns (r: seq<Project>)
    ensures r == MainSpec.ProjectsOfUser(db.State(), username)
  {
    r := [];
    var id := 0;
    while id < db.nextId
      invariant 0 <= id <= db.nextId
      invariant r == MainSpec.ActiveProjectsBelow(db.State(), username, id)
    {
      if id in db.projects && db.projects[id].isActive && username in db.projects[id].members {
        r := r + [FromDb(db.projects[id], db.likes)];
      }
      id := id + 1;
    }
  }
}
