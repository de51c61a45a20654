/**
 * The tables behind projectapi: projects, their three role relations
 * (members, announce users, admin users) and like facts. The relational
 * engine and its sessions are not modelled; the tables are values owned by
 * a `Store` object that the handlers update in place.
 */
module Db {
  import opened Outcomes

  type Username = string

  /** The ten SNS link columns of a project. */
  datatype Sns = Sns(
    twitter: Option<string>, instagram: Option<string>, github: Option<string>,
    youtube: Option<string>, vimeo: Option<string>, facebook: Option<string>,
    tiktok: Option<string>, linkedin: Option<string>, wantedly: Option<string>,
    url: Option<string>)

  /**
   * A project row. The three role relations are kept as the usernames of
   * their rows, in row order.
   */
  datatype ProjectRow = ProjectRow(
    id: int, title: string, subtitle: Option<string>, bgImage: Option<string>,
    description: string, skilltags: seq<int>, sns: Sns, isActive: bool,
    members: seq<Username>, announceUsers: seq<Username>, adminUsers: seq<Username>)

  /** A like fact: `username` likes the project `projectId`. */
  datatype LikeRow = LikeRow(username: Username, projectId: int)

  /** A snapshot of every table, and the id the next project will get. */
  datatype DbState = DbState(projects: map<int, ProjectRow>, likes: seq<LikeRow>, nextId: nat)

  predicate NoDup<T(==)>(s: seq<T>) {
    forall i, j | 0 <= i < j < |s| :: s[i] != s[j]
  }

  /** admin_users ⊆ announce_users ⊆ members, and no list repeats a user. */
  predicate RolesNested(p: ProjectRow) {
    && (forall u | u in p.adminUsers :: u in p.announceUsers)
    && (forall u | u in p.announceUsers :: u in p.members)
    && NoDup(p.members) && NoDup(p.announceUsers) && NoDup(p.adminUsers)
  }

  /** Every project sits under its own id, below the next fresh id. */
  ghost predicate KeyedById(st: DbState) {
    forall id | id in st.projects :: 0 <= id < st.nextId && st.projects[id].id == id
  }

  /**
   * The store invariant: every project sits under its own id, below the next
   * fresh id, with nested roles; every like fact names an existing project;
   * and there is at most one fact per (username, project) pair.
   */
  ghost predicate Inv(st: DbState) {
    && KeyedById(st)
    && (forall id | id in st.projects :: RolesNested(st.projects[id]))
    && (forall f | f in st.likes :: f.projectId in st.projects)
    && NoDup(st.likes)
  }

  /** The number of like facts for (`username`, `id`): the query's `count()`. */
  function CountLikes(likes: seq<LikeRow>, username: Username, id: int): (n: nat)
    ensures n <= |likes|
    ensures n > 0 <==> LikeRow(username, id) in likes
  {
    if likes == [] then 0
    else (if likes[0] == LikeRow(username, id) then 1 else 0) + CountLikes(likes[1..], username, id)
  }

  /** The like table once every fact for (`username`, `id`) is deleted. */
  function WithoutLikes(likes: seq<LikeRow>, username: Username, id: int): (r: seq<LikeRow>)
    ensures forall f :: f in r <==> f in likes && f != LikeRow(username, id)
    ensures |r| == |likes| - CountLikes(likes, username, id)
  {
    if likes == [] then []
    else if likes[0] == LikeRow(username, id) then WithoutLikes(likes[1..], username, id)
    else [likes[0]] + WithoutLikes(likes[1..], username, id)
  }

  lemma NoDupTail<T>(s: seq<T>)
    requires NoDup(s) && s != []
    ensures NoDup(s[1..]) && s[0] !in s[1..]
  {
    forall i, j | 0 <= i < j < |s| - 1 ensures s[1..][i] != s[1..][j] {
      assert s[1..][i] == s[i + 1] && s[1..][j] == s[j + 1];
    }
  }

  lemma NoDupAppend<T>(s: seq<T>, x: T)
    requires NoDup(s) && x !in s
    ensures NoDup(s + [x])
  {
  }

  /** With no duplicate facts, a (username, project) pair has at most one fact. */
  lemma {:induction false} AtMostOneLike(likes: seq<LikeRow>, username: Username, id: int)
    requires NoDup(likes)
    ensures CountLikes(likes, username, id) <= 1
  {
    if likes != [] {
      NoDupTail(likes);
      AtMostOneLike(likes[1..], username, id);
    }
  }

  /** Appending a fact adds one to its own pair's count and nothing to any other's. */
  lemma {:induction false} CountLikesAppend(likes: seq<LikeRow>, f: LikeRow, username: Username, id: int)
    ensures CountLikes(likes + [f], username, id)
         == CountLikes(likes, username, id) + (if f == LikeRow(username, id) then 1 else 0)
  {
    if likes != [] {
      assert (likes + [f])[1..] == likes[1..] + [f];
      CountLikesAppend(likes[1..], f, username, id);
    }
  }

  /** Deleting the facts of one pair keeps the remaining facts distinct. */
  lemma {:induction false} WithoutLikesNoDup(likes: seq<LikeRow>, username: Username, id: int)
    requires NoDup(likes)
    ensures NoDup(WithoutLikes(likes, username, id))
  {
    if likes != [] {
      NoDupTail(likes);
      WithoutLikesNoDup(likes[1..], username, id);
      var rest := WithoutLikes(likes[1..], username, id);
      if likes[0] != LikeRow(username, id) {
        assert likes[0] !in rest;
        var r := [likes[0]] + rest;
        forall i, j | 0 <= i < j < |r| ensures r[i] != r[j] {
          if i == 0 {
            assert r[j] == rest[j - 1];
          } else {
            assert r[i] == rest[i - 1] && r[j] == rest[j - 1];
          }
        }
      }
    }
  }

  /** The store the handlers read and update. */
  class Store {
    var projects: map<int, ProjectRow>
    var likes: seq<LikeRow>
    var nextId: nat

    function State(): DbState
      reads this
    {
      DbState(projects, likes, nextId)
    }

    ghost predicate Valid()
      reads this
    {
      Inv(State())
    }

    constructor ()
      ensures Valid()
      ensures State() == DbState(map[], [], 0)
    {
      projects := map[];
      likes := [];
      nextId := 0;
    }
  }
}
