# projectapi: project roles and likes, modelled in Dafny

This project models the core of the `projectapi` service of ProjectSharingPage:
the store of projects with their three role lists (members, announce users,
admin users) and the global table of like facts, and the handlers that read
and change it — create, update, soft delete, like, unlike, join a member,
list a user's projects — together with the `from_db` and
`Likes.get_from_project` projections and the record construction and
overwrite done by `ProjectCreate.create` and `Project.update`.

Layout, one module per file:

- `outcomes.dfy` (`Outcomes`): `Option`, `Result`, and the error statuses the
  handlers raise (401, 403, 404, 429).
- `db.dfy` (`Db`): the project and like rows, a snapshot `DbState` of the
  tables, the store invariant `Inv`, the like-table queries (`count()` and
  `delete()`), and the `Store` class the handlers update in place.
- `schema.dfy` (`Schema`): the response and request shapes, `FromDb`,
  `GetFromProject`, and `Create` / `Update` on the store with the functions
  that specify them.
- `main_spec.dfy` (`MainSpec`): each handler's decision logic as a function
  from a table snapshot to its response and the tables afterwards.
- `main.dfy` (`Main`): the handlers as methods on a `Store`, each proved to
  give exactly what its `MainSpec` function says and to keep `Inv`.
- `main_properties.dfy` (`MainProperties`): what the handlers guarantee:
  check order, the role-tier rule, the like rules, and invariant
  preservation.

The store invariant `Db.Inv` says: admin_users ⊆ announce_users ⊆ members
for every project, no role list repeats a user, every project sits under its
own id below the next fresh id, every like fact names an existing project,
and no (username, project) pair has two like facts. Every handler keeps it.

The user service (`user.auth`, `user.exist`, `user.tag_exist`) is a
parameter, `MainSpec.Users`, holding three uninterpreted functions; a
missing cookie is `None` for the token.

## Behaviour that follows the code, not the intent

The model follows the code:

- `get_project`, `get_likes`, `like` and `join_member` do not look at
  `is_active`. A deactivated project can still be read, liked and joined.
- `unlike` never looks the project up. It answers 429 when no fact exists,
  whether or not the project exists.
- Every conflict is answered with 429 (too many requests), never 409.
- `delete_project` looks the project up before it checks the token.
  `update_project` checks the skill tags after the admin check.
  `create_project` checks them right after authentication.
- No handler rejects an empty title or a negative id.

## Model

| member | source | states |
|---|---|---|
| `Db.CountLikes` | projectapi/main.py:232-237 | the like query's count is positive exactly when a fact for (username, id) exists |
| `Db.WithoutLikes` | projectapi/main.py:274-283 | deleting the query's rows removes exactly the facts for (username, id), keeps every other fact, and shrinks the table by their count |
| `Db.AtMostOneLike` | projectapi/main.py:237-241 | when the like facts are distinct, a pair has at most one fact |
| `Db.CountLikesAppend` | projectapi/main.py:240-241 | adding a like fact adds one to that pair's count and nothing to any other pair's |
| `Db.WithoutLikesNoDup` | projectapi/main.py:283 | deleting a pair's facts keeps the remaining facts distinct |
| `Schema.LikersOf` | projectapi/schema.py:144 | a user is listed exactly when a fact for that user and project exists, and the list is no longer than the like table |
| `Schema.LikersOfAppend` | projectapi/schema.py:144 | appending a like fact appends its username when it names the project and changes nothing otherwise, so the likers follow the like table's order |
| `Schema.FromDb` | projectapi/schema.py:34-59 | the view has the row's id and its three role lists in the same order |
| `Schema.FromDbNoLikes` | projectapi/schema.py:56 | the view's like count is 0 exactly when no like fact names the project |
| `Schema.GetFromProject` | projectapi/schema.py:141-145 | the likers listed are exactly the users with a fact for the project, and there are as many as the view's like count |
| `Schema.LikersDistinct` | projectapi/schema.py:144 | distinct like facts give distinct likers |
| `Schema.LikeCountIsCardinality` | projectapi/schema.py:56 | with distinct facts, the view's like count is the number of distinct users who like the project |
| `Schema.NewRow` | projectapi/schema.py:98-133 | a new row's roles are nested and duplicate-free |
| `Schema.Created` | projectapi/schema.py:115-133 | creation adds exactly the fresh id, holding the new row with the creator in every role; every existing project and every like fact is left as it was |
| `Schema.CreateRoundTrip` | projectapi/schema.py:98-135 | the view of a new project has the request's title, subtitle, bg_image, description, SNS links and skill tags, the creator as sole member, announce user and admin, and no likes |
| `Schema.CreatedKeepsInv` | projectapi/schema.py:115-133 | creation keeps the store invariant |
| `Schema.Create` | projectapi/schema.py:96-135 | `ProjectCreate.create` inserts the row and its three role rows, leaves the tables as `Created` says, and returns the new project's view |
| `Schema.Overwrite` | projectapi/schema.py:67-82 | an update keeps the row's id, `is_active` and role lists |
| `Schema.Updated` | projectapi/schema.py:61-84 | an update overwrites the metadata of the row under the request's id and of no other row; it changes no project keys, no like facts and no fresh id |
| `Schema.UpdateView` | projectapi/schema.py:67-85 | after an update the view carries the request's metadata, SNS links and skill tags, and the row's own id, roles and like count |
| `Schema.UpdatedKeepsInv` | projectapi/schema.py:61-85 | an update keeps the store invariant |
| `Schema.Update` | projectapi/schema.py:61-85 | `Project.update` returns None exactly for an unknown id; otherwise it overwrites the row and returns its refreshed view |
| `MainSpec.Authenticate` | projectapi/main.py:221-225 | a missing cookie never authenticates |
| `MainSpec.GetProject` | projectapi/main.py:39-45 | 404 exactly for an unknown id; `is_active` is not consulted |
| `MainSpec.CreateProject` | projectapi/main.py:65-83 | a refused create leaves the tables unchanged |
| `MainSpec.UpdateProject` | projectapi/main.py:103-136 | a refused update leaves the tables unchanged |
| `MainSpec.DeleteProject` | projectapi/main.py:157-173 | a refused delete leaves the tables unchanged |
| `MainSpec.GetLikes` | projectapi/main.py:192-198 | 404 exactly for an unknown id |
| `MainSpec.AllTagsExist` | projectapi/main.py:77 | the skill-tag check passes exactly when every listed tag exists |
| `MainSpec.Like` | projectapi/main.py:220-244 | a refused like leaves the tables unchanged |
| `MainSpec.Unlike` | projectapi/main.py:266-286 | a refused unlike leaves the tables unchanged |
| `MainSpec.TierUsers` | projectapi/main.py:340-348 | the list a join checks for a conflict is one of the project's role lists: duplicate-free, within the members and holding every admin when the roles are nested |
| `MainSpec.AddIfAbsent` | projectapi/main.py:358-364 | a tier gains the user unless it already holds it, and stays duplicate-free |
| `MainSpec.Joined` | projectapi/main.py:350-382 | joining keeps the project's id and `is_active`, and keeps its roles nested and duplicate-free |
| `MainSpec.JoinMember` | projectapi/main.py:313-384 | a refused join leaves the tables unchanged |
| `Main.GetProject` | projectapi/main.py:39-45 | 404 exactly for an unknown id, active or not; otherwise the view has the requested id, the stored row's metadata and role lists, and a like count equal to the number of distinct users who like the project; the response is `MainSpec.GetProject`'s |
| `Main.TagsExist` | projectapi/main.py:77 | the tag check passes exactly when every skill tag exists |
| `Main.CreateProject` | projectapi/main.py:65-83 | the handler's response and new tables are those of `MainSpec.CreateProject`; the invariant is kept |
| `Main.UpdateProject` | projectapi/main.py:103-136 | the handler's response and new tables are those of `MainSpec.UpdateProject`; the invariant is kept |
| `Main.DeleteProject` | projectapi/main.py:157-173 | the handler's response and new tables are those of `MainSpec.DeleteProject`; the invariant is kept |
| `Main.GetLikes` | projectapi/main.py:192-198 | 404 exactly for an unknown id; otherwise a user is listed exactly when a like fact for the user and the project exists, no user twice, and there are as many as `get_project`'s like count; the response is `MainSpec.GetLikes`'s |
| `Main.Like` | projectapi/main.py:220-244 | the handler's response and new tables are those of `MainSpec.Like`; the invariant is kept |
| `Main.Unlike` | projectapi/main.py:266-286 | the handler's response and new tables are those of `MainSpec.Unlike`; the invariant is kept |
| `Main.JoinMember` | projectapi/main.py:313-384 | the handler's response and new tables are those of `MainSpec.JoinMember`; the invariant is kept |
| `MainSpec.ActiveProjectsBelow` | projectapi/main.py:425-432 | the scan over ids below `n` lists at most `n` views, each with the user among its members |
| `MainSpec.ProjectsOfUser` | projectapi/main.py:423-432 | `projects_of_user` lists no more views than ids handed out, each with the user among its members; `ProjectsOfUserExact` states the list exactly |
| `Main.ProjectsOfUser` | projectapi/main.py:423-432 | the handler's list is `MainSpec.ProjectsOfUser` |
| `MainProperties.CreateKeepsInv` | projectapi/main.py:65-83 | a create keeps the store invariant |
| `MainProperties.UpdateKeepsInv` | projectapi/main.py:103-136 | an update keeps the store invariant |
| `MainProperties.DeleteKeepsInv` | projectapi/main.py:157-173 | a delete keeps the store invariant |
| `MainProperties.LikeKeepsInv` | projectapi/main.py:227-242 | a like keeps the store invariant, including at most one fact per pair |
| `MainProperties.UnlikeKeepsInv` | projectapi/main.py:273-284 | an unlike keeps the store invariant |
| `MainProperties.JoinKeepsInv` | projectapi/main.py:356-384 | a join keeps the store invariant, so admin ⊆ announce ⊆ members with no duplicates in any project |
| `MainProperties.JoinChecksInOrder` | projectapi/main.py:317-337 | join answers 401 for a missing or rejected token, then 404 for an unknown target user (before the project lookup), then 404 for an unknown project, then 403 for a non-admin; any failure leaves the tables unchanged |
| `MainProperties.JoinConflictIsExactTier` | projectapi/main.py:340-348 | past those checks, join answers 429 exactly when the target already holds the requested tier, and 429 is the only failure left |
| `MainProperties.JoinPlacesTarget` | projectapi/main.py:351-384 | a successful join puts the target in members, also in announce_users for ANNOUNCE and ADMIN, and in admin_users only for ADMIN; each list gains at most the target, once, at its end; MEMBER leaves announce and admin lists as they were; nothing else in the store changes |
| `MainProperties.JoinTwiceConflicts` | projectapi/main.py:340-348 | repeating a successful join at the same tier is refused with 429 and changes nothing |
| `MainProperties.JoinKeepsRolesNested` | projectapi/main.py:356-382 | a join keeps the project's roles nested and duplicate-free |
| `MainProperties.LikeOutcomes` | projectapi/main.py:220-242 | like answers 401, then 404 for an unknown project, then 429 exactly when the fact exists; success appends exactly that one fact, leaving the pair with exactly one |
| `MainProperties.UnlikeOutcomes` | projectapi/main.py:266-284 | unlike answers 401, then 429 exactly when no fact exists, and succeeds exactly when an authenticated user has a fact for the project; success removes every fact for the pair and keeps every other fact |
| `MainProperties.UnlikeIgnoresProjects` | projectapi/main.py:273-284 | unlike's response and like table do not depend on the project table |
| `MainProperties.LikeTwiceConflicts` | projectapi/main.py:232-238 | a second like of the same project by the same user is refused with 429 and changes nothing |
| `MainProperties.LikeUnlikeLike` | projectapi/main.py:220-286 | like, unlike, like all succeed and leave exactly one fact for the pair |
| `MainProperties.LikeCountNoDrift` | projectapi/schema.py:56 | the like count shown equals the number of distinct likers and the length of `get_likes`'s list |
| `MainProperties.DeleteOutcomes` | projectapi/main.py:157-173 | delete answers 404 for an unknown id before any token check, then 401, then 403 for a non-admin; success only sets `is_active` to false, keeping roles and likes |
| `MainProperties.DeletedStillReadable` | projectapi/main.py:39-45 | after a delete, `get_project` and `get_likes` still answer for the project with the same view |
| `MainProperties.CreateOutcomes` | projectapi/main.py:65-83 | create answers 401, then 404 for an unknown tag, and succeeds exactly when an authenticated user names only existing tags; success adds the fresh id and advances the counter |
| `MainProperties.CreateRejectsUnknownTag` | projectapi/main.py:76-81 | a create with any unknown skill tag answers 404 and creates nothing |
| `MainProperties.CreateThenGet` | projectapi/main.py:83 | a successful create adds one project under the fresh id with the creator as sole member, announce user and admin; `get_project` returns the same view, with the request's metadata and no likes |
| `MainProperties.UpdateOutcomes` | projectapi/main.py:107-136 | update answers 401, then 404 for an unknown project, then 403 for a non-admin, then 404 for an unknown tag, and succeeds exactly when all four checks pass; success returns the request's metadata with the project's own id, roles and like count, and `get_project` then reads back the same view |
| `MainProperties.ActiveProjectsBelowSound` | projectapi/main.py:425-432 | every listed view is that of an active project whose members include the user |
| `MainProperties.ActiveProjectsBelowComplete` | projectapi/main.py:425-432 | every active project whose members include the user is listed |
| `MainProperties.ActiveProjectsBelowAscending` | projectapi/main.py:425-432 | the list is in ascending id order, so no project is listed twice |
| `MainProperties.ProjectsOfUserExact` | projectapi/main.py:423-432 | `projects_of_user` lists exactly the active projects whose members include the user, each once |

## Left out

- HTTP routing, cookies, `HTTPException` and the response models: a handler returns a `Result` whose error is the HTTP status.
- Sessions, commits and queries of the relational store: each handler is one atomic step on the tables. Concurrent requests, and the check-then-insert races between them, are not modelled.
- Storage-layer failures: the store never fails.
- `user.auth`, `user.exist` and `user.tag_exist` are foreign calls: they are uninterpreted function parameters.
- The `db` module is not part of this model. A new project is taken to be active. Ids come from a counter starting at 0. Role and like rows are listed in insertion order.
- `ProjectSearchResult.search`, behind `search_project`, is not defined in the schema module, so the title search and its ranking are not part of this model.
- `schema.ProjectUpdate`, `schema.ProjectJoin` and `schema.MemberType` are not part of this model. An update request is a `Project` view, a join request is a username and a three-value tier.
- `Schema.Overwrite`, `Schema.Updated`: the assignment `p.members = self.members` in `Project.update` (projectapi/schema.py:72) is left out, so an update keeps the stored role lists. It hands a list of usernames to an ORM relationship whose behaviour is not shown.
- The `index` health endpoint.
- Main.ProjectsOfUser: lists the matching projects in ascending id order, once per project. The source walks the user's membership rows in storage order. The two agree on contents because no members list repeats a user.
