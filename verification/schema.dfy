/**
 * The request and response shapes of projectapi and the code that moves
 * between them and the tables: the `from_db` and `get_from_project`
 * projections, and the record construction and overwrite done by
 * `ProjectCreate.create` and `Project.update`.
 */
module Schema {
  import opened Outcomes
  import opened Db

  /** The project view returned to callers. */
  datatype Project = Project(
    id: int, title: string, subtitle: Option<string>, bgImage: Option<string>,
    description: string, members: seq<Username>, announceUsers: seq<Username>,
    adminUsers: seq<Username>, likes: nat, sns: Sns, skilltags: seq<int>)

  /** The body of a create request. */
  datatype ProjectCreate = ProjectCreate(
    title: string, subtitle: Option<string>, bgImage: Option<string>,
    description: string, sns: Sns, skilltags: seq<int>)

  /** The users who like a project. */
  datatype Likes = Likes(users: seq<Username>)

  /** The three role tiers a user can be joined at. */
  datatype MemberType = Member | Announce | Admin

  /** The body of a join request. */
  datatype ProjectJoin = ProjectJoin(username: Username, kind: MemberType)

  /** The usernames of the like facts for project `id`, in table order. */
  function LikersOf(likes: seq<LikeRow>, id: int): (users: seq<Username>)
    ensures |users| <= |likes|
    ensures forall u :: u in users <==> LikeRow(u, id) in likes
  {
    if likes == [] then []
    else (if likes[0].projectId == id then [likes[0].username] else []) + LikersOf(likes[1..], id)
  }

  /**
   * Appending a like fact appends its username to the project's likers when
   * the fact names the project, and leaves them alone otherwise, so the
   * likers keep the order of the like table.
   */
  lemma {:induction false} LikersOfAppend(likes: seq<LikeRow>, f: LikeRow, id: int)
    ensures LikersOf(likes + [f], id) == LikersOf(likes, id) + (if f.projectId == id then [f.username] else [])
  {
    if likes != [] {
      assert (likes + [f])[1..] == likes[1..] + [f];
      LikersOfAppend(likes[1..], f, id);
    }
  }

  /** The view of a project row: its like count is derived from the like facts. */
  function FromDb(p: ProjectRow, likes: seq<LikeRow>): (v: Project)
    ensures v.id == p.id
    ensures v.members == p.members && v.announceUsers == p.announceUsers && v.adminUsers == p.adminUsers
  {
    Project(
      p.id, p.title, p.subtitle, p.bgImage, p.description,
      p.members, p.announceUsers, p.adminUsers,
      |LikersOf(likes, p.id)|, p.sns, p.skilltags)
  }

  /** A project's view shows no likes exactly when no like fact names it. */
  lemma FromDbNoLikes(p: ProjectRow, likes: seq<LikeRow>)
    ensures FromDb(p, likes).likes == 0 <==> forall u :: LikeRow(u, p.id) !in likes
  {
    var users := LikersOf(likes, p.id);
    assert users != [] ==> users[0] in users;
  }

  /** The likers of a project; as many as the view's like count. */
  function GetFromProject(p: ProjectRow, likes: seq<LikeRow>): (r: Likes)
    ensures |r.users| == FromDb(p, likes).likes
    ensures forall u :: u in r.users <==> LikeRow(u, p.id) in likes
  {
    Likes(LikersOf(likes, p.id))
  }

  lemma DistinctCardinality<T>(s: seq<T>)
    requires NoDup(s)
    ensures |set x | x in s| == |s|
  {
    if s != [] {
      NoDupTail(s);
      DistinctCardinality(s[1..]);
      assert (set x | x in s) == (set x | x in s[1..]) + {s[0]};
    }
  }

  /** The likers of a project are distinct when the like facts are. */
  lemma {:induction false} LikersDistinct(likes: seq<LikeRow>, id: int)
    requires NoDup(likes)
    ensures NoDup(LikersOf(likes, id))
  {
    if likes != [] {
      NoDupTail(likes);
      LikersDistinct(likes[1..], id);
      var rest := LikersOf(likes[1..], id);
      if likes[0].projectId == id {
        assert LikeRow(likes[0].username, id) == likes[0];
        assert likes[0].username !in rest;
        var r := [likes[0].username] + rest;
        forall i, j | 0 <= i < j < |r| ensures r[i] != r[j] {
          if i == 0 {
            assert r[j] == rest[j - 1];
          } else {
            assert r[i] == rest[i - 1] && r[j] == rest[j - 1];
          }
        }
      }
    }
  }

  /**
   * With at most one fact per pair, the like count of the view is the number
   * of distinct users who like the project.
   */
  lemma LikeCountIsCardinality(p: ProjectRow, likes: seq<LikeRow>)
    requires NoDup(likes)
    ensures FromDb(p, likes).likes == |set f | f in likes && f.projectId == p.id :: f.username|
  {
    var users := LikersOf(likes, p.id);
    LikersDistinct(likes, p.id);
    DistinctCardinality(users);
    assert (set u | u in users) == (set f | f in likes && f.projectId == p.id :: f.username) by {
      forall u ensures u in users <==> u in (set f | f in likes && f.projectId == p.id :: f.username) {
        if u in users {
          assert LikeRow(u, p.id) in likes;
        }
      }
    }
  }

  /** The row `ProjectCreate.create` builds for `username` under the fresh `id`. */
  function NewRow(pc: ProjectCreate, username: Username, id: int): (p: ProjectRow)
    ensures RolesNested(p)
  {
    ProjectRow(
      id, pc.title, pc.subtitle, pc.bgImage, pc.description, pc.skilltags, pc.sns,
      true, [username], [username], [username])
  }

  /** The tables after creating a project for `username`. */
  function Created(st: DbState, pc: ProjectCreate, username: Username): (st': DbState)
    ensures st'.likes == st.likes && st'.nextId == st.nextId + 1
    ensures st'.projects.Keys == st.projects.Keys + {st.nextId}
    ensures st'.projects[st.nextId] == NewRow(pc, username, st.nextId)
    ensures forall id | id in st.projects && id != st.nextId :: st'.projects[id] == st.projects[id]
    ensures st.nextId !in st.projects ==> |st'.projects| == |st.projects| + 1
  {
    st.(projects := st.projects[st.nextId := NewRow(pc, username, st.nextId)], nextId := st.nextId + 1)
  }

  /**
   * A freshly created project, seen through `from_db`, shows the request's
   * metadata, SNS links and skill tags unchanged, the creator as the sole
   * holder of every role, and no likes.
   */
  lemma CreateRoundTrip(pc: ProjectCreate, username: Username, id: int, likes: seq<LikeRow>)
    requires forall f | f in likes :: f.projectId != id
    ensures var v := FromDb(NewRow(pc, username, id), likes);
      && v.id == id && v.title == pc.title && v.subtitle == pc.subtitle
      && v.bgImage == pc.bgImage && v.description == pc.description
      && v.sns == pc.sns && v.skilltags == pc.skilltags
      && v.members == [username] && v.announceUsers == [username] && v.adminUsers == [username]
      && v.likes == 0
  {
    FromDbNoLikes(NewRow(pc, username, id), likes);
  }

  /** Creating keeps the store invariant. */
  lemma CreatedKeepsInv(st: DbState, pc: ProjectCreate, username: Username)
    requires Inv(st)
    ensures Inv(Created(st, pc, username))
  {
  }

  /**
   * `ProjectCreate.create`: insert the new row, then its three role rows;
   * returns the new project's view.
   */
  method Create(db: Store, pc: ProjectCreate, username: Username) returns (v: Project)
    requires db.Valid()
    modifies db
    ensures db.Valid()
    ensures db.State() == Created(old(db.State()), pc, username)
    ensures v == FromDb(db.projects[old(db.nextId)], db.likes)
  {
    ghost var st := db.State();
    var id := db.nextId;
    var p := ProjectRow(
      id, pc.title, pc.subtitle, pc.bgImage, pc.description, pc.skilltags, pc.sns,
      true, [], [], []);
    db.projects := db.projects[id := p];
    db.nextId := id + 1;
    p := p.(members := p.members + [username]);
    p := p.(announceUsers := p.announceUsers + [username]);
    p := p.(adminUsers := p.adminUsers + [username]);
    assert p == NewRow(pc, username, id);
    db.projects := db.projects[id := p];
    assert db.projects == st.projects[id := NewRow(pc, username, id)];
    assert db.State() == Created(st, pc, username);
    CreatedKeepsInv(st, pc, username);
    v := FromDb(p, db.likes);
  }

  /** The row after `Project.update` overwrites its metadata with `upd`'s. */
  function Overwrite(p: ProjectRow, upd: Project): (p': ProjectRow)
    ensures p'.id == p.id && p'.isActive == p.isActive
    ensures p'.members == p.members && p'.announceUsers == p.announceUsers && p'.adminUsers == p.adminUsers
  {
    p.(title := upd.title, subtitle := upd.subtitle, bgImage := upd.bgImage,
       description := upd.description, skilltags := upd.skilltags, sns := upd.sns)
  }

  /** The tables after `Project.update`: unchanged when the id is unknown. */
  function Updated(st: DbState, upd: Project): (st': DbState)
    ensures st'.likes == st.likes && st'.nextId == st.nextId && st'.projects.Keys == st.projects.Keys
    ensures upd.id in st.projects ==> st'.projects[upd.id] == Overwrite(st.projects[upd.id], upd)
    ensures forall id | id in st.projects && id != upd.id :: st'.projects[id] == st.projects[id]
  {
    if upd.id in st.projects then st.(projects := st.projects[upd.id := Overwrite(st.projects[upd.id], upd)])
    else st
  }

  /**
   * The refreshed view after an update shows `upd`'s metadata, SNS links and
   * skill tags, and the row's own id, roles and like count.
   */
  lemma UpdateView(p: ProjectRow, upd: Project, likes: seq<LikeRow>)
    ensures var v := FromDb(Overwrite(p, upd), likes);
      && v.title == upd.title && v.subtitle == upd.subtitle && v.bgImage == upd.bgImage
      && v.description == upd.description && v.sns == upd.sns && v.skilltags == upd.skilltags
      && v.id == p.id && v.likes == FromDb(p, likes).likes
      && v.members == p.members && v.announceUsers == p.announceUsers && v.adminUsers == p.adminUsers
  {
  }

  /** Updating keeps the store invariant. */
  lemma UpdatedKeepsInv(st: DbState, upd: Project)
    requires Inv(st)
    ensures Inv(Updated(st, upd))
  {
  }

  /**
   * `Project.update`: None for an unknown id, otherwise overwrite the row's
   * metadata and return its refreshed view.
   */
  method Update(db: Store, upd: Project) returns (r: Option<Project>)
    requires db.Valid()
    modifies db
    ensures db.Valid()
    ensures db.State() == Updated(old(db.State()), upd)
    ensures r.None? <==> upd.id !in old(db.projects)
    ensures r.Some? ==> r.value == FromDb(db.projects[upd.id], db.likes)
  {
    ghost var st := db.State();
    if upd.id !in db.projects {
      return None;
    }
    var p := db.projects[upd.id];
    p := p.(title := upd.title);
    p := p.(subtitle := upd.subtitle);
    p := p.(bgImage := upd.bgImage);
    p := p.(description := upd.description);
    p := p.(skilltags := upd.skilltags);
    p := p.(sns := upd.sns);
    db.projects := db.projects[upd.id := p];
    UpdatedKeepsInv(st, upd);
    r := Some(FromDb(p, db.likes));
  }
}
