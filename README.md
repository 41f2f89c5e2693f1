# TeamSync core, modelled in Dafny

TeamSync is an internal portal: an ASP.NET Core backend over a MongoDB
document store, and a React frontend. This project models the parts of it that
make decisions:

- **Org-chart assembly** (`UserRepository.GetOrgChartAsync`). The subject's
  manager reference (a distinguished name) is followed upward through a flat
  user table, with a depth cutoff. The subject's siblings are collected.
  Only the root is marked as the active user.
- **The frontend's view of that chart** (`OrgChart.tsx`). `flattenManagerChain`
  turns the nested chain into a top-down list. The siblings are split into a
  left and a right half, with the active user drawn between them.
- **The team, project and comment repositories.** Each is a class whose
  collection is a sequence field. Queries never change it; insert, replace,
  delete, push and pull update it in place.
- **The project update handler.** It looks the project up, overwrites
  four fields, and lets the repository's "not modified" exception through.
- **The login decision** (`AuthService.LoginAsync`, `AuthController.Login`).

Files: `wrappers.dfy` (Option, Result), `queries.dfy` (the store's query
primitives), `users.dfy`, `org_chart_view.dfy`, `teams.dfy`, `projects.dfy`,
`comments.dfy`, `auth.dfy`.

How the store and the runtime are represented:

- A collection is a sequence in its natural order.
- `Find(..).FirstOrDefault()` is the first match, or `None` (`Queries.First`, `Queries.FirstIndex`).
- `Find(..).ToList()` is `Queries.Filter`.
- `InsertOne` appends.
- `ReplaceOne`, `DeleteOne` and `FindOneAndUpdate` act on the first match.
- `Update.Push` appends to the list field.
- `Update.Pull` removes every equal element (`Queries.RemoveAll`).
- `ReturnDocument.After` returns the updated document.
- `null` references are `None`.
- A thrown exception is a `Failure` result.
- A nullable string is `""` when null, and a null list is `[]`. In the
  org-chart assembly and the login code the two never behave differently:
  those strings are only tested with `string.IsNullOrEmpty`, or compared
  with a value already known to be non-empty. The username lookups and the
  user update are the same only for a non-empty username, which is what the
  photo and org-chart routes always pass. In the store they do differ,
  because BSON `null` is not `""` and a null array is not `[]`. The model
  does not capture that difference (see "Left out").
- `DateTime` is an integer tick count.
- The clock is the parameter `now`.
- The directory (`LdapService`) is a function parameter `(username, password) -> Option<User>`.
- The token service is a function parameter `User -> string`.

Where the code and its documentation disagree, the model follows the code:

- The manager chain is cut when `depth > 5`, and depths start at 0, so up to
  six ancestors are returned. The doc comment on the org-chart endpoint
  (`UsersController.cs`, "max 5") says five. `Users.SelfManagedChainIsCut` shows
  that six are reached: a user who is their own manager gets six nodes.
- Repository update-not-found behaviour differs by entity, as in the code.
  A missing team id gives `None`. A missing project id, or an unchanged
  project, gives the error.

## Model

| member | source | states |
|---|---|---|
| Queries.FirstIndex | backend/src/TeamSync.Persistency/Repositories/UserRepository.cs:19-21 | the first-match position: it matches, nothing before it matches, and it is absent exactly when nothing matches |
| Queries.First | backend/src/TeamSync.Persistency/Repositories/TeamRepository.cs:23-27 | FirstOrDefault: a present result is the element at some position that matches with no match before it, so the first match; absent exactly when no element matches |
| Queries.Filter | backend/src/TeamSync.Persistency/Repositories/ProjectRepository.cs:28-32 | ToList of a filter: exactly the matching elements, each with its stored multiplicity |
| Queries.FilterAppend | backend/src/TeamSync.Persistency/Repositories/ProjectRepository.cs:28-32 | filtering distributes over concatenation, so collection order is kept |
| Queries.RemoveAll | backend/src/TeamSync.Persistency/Repositories/TeamRepository.cs:82-87 | Pull: the value is gone, every other value keeps its multiplicity, and a list without the value is unchanged |
| Queries.FilterKeepsAll | backend/src/TeamSync.Persistency/Repositories/TeamRepository.cs:82-87 | a filter that every element passes returns the list unchanged |
| Queries.RemoveAllAppend | backend/src/TeamSync.Persistency/Repositories/TeamRepository.cs:82-87 | Pull distributes over concatenation, so the remaining members keep their order |
| Users.GetByUsername | backend/src/TeamSync.Persistency/Repositories/UserRepository.cs:17-22 | a found user is the first stored user with that username; none exactly when no user has it |
| Users.GetPhotoByUsername | backend/src/TeamSync.Persistency/Repositories/UserRepository.cs:24-30 | the returned photo is exactly the photo of the first stored user with that username; no photo for an unknown username |
| Users.GetByDistinguishedName | backend/src/TeamSync.Persistency/Repositories/UserRepository.cs:52 | the manager lookup: a found user is the first stored user with that distinguished name, so a shared name resolves to the earliest user; none exactly when no user has it |
| Users.BuildManagerChain | backend/src/TeamSync.Persistency/Repositories/UserRepository.cs:49-66 | terminates by the depth measure on any table, cycles included; past depth 5 it is empty; from depth d it has at most 6 - d nodes; no node is active and no node has siblings |
| Users.ChainUnfolds | backend/src/TeamSync.Persistency/Repositories/UserRepository.cs:52-65 | one resolved hop gives a node describing the manager, followed by the manager's own chain one level deeper |
| Users.ChainNodesResolve | backend/src/TeamSync.Persistency/Repositories/UserRepository.cs:52-61 | the first node is the user the reference names; every node describes the stored user its distinguished name resolves to |
| Users.ChainIsLinked | backend/src/TeamSync.Persistency/Repositories/UserRepository.cs:52-63 | every further node is the one named by the manager reference of the user behind the previous node |
| Users.ChainStopsOnlyWhenDangling | backend/src/TeamSync.Persistency/Repositories/UserRepository.cs:51-53 | a chain shorter than the cutoff ends on an empty or unresolvable reference, with no error and with the nodes built so far |
| Users.SelfManagedChainIsCut | backend/src/TeamSync.Persistency/Repositories/UserRepository.cs:51-63 | a self-managed user (a cycle of one) yields exactly 6 - d nodes from depth d, so the cutoff gives six nodes |
| Users.SiblingNode | backend/src/TeamSync.Persistency/Repositories/UserRepository.cs:85-95 | a sibling node describes its user |
| Users.Peers | backend/src/TeamSync.Persistency/Repositories/UserRepository.cs:70-72 | exactly the stored users with this manager and a different username |
| Users.Siblings | backend/src/TeamSync.Persistency/Repositories/UserRepository.cs:68-95 | empty when the manager is empty; otherwise one node per peer (a stored user with the same manager and another username), in table order, so the count equals the number of peers; each node describes its peer, is inactive, has no manager and no siblings, and is never the subject |
| Users.GetOrgChart | backend/src/TeamSync.Persistency/Repositories/UserRepository.cs:44-97 | none exactly for an unknown username; the root describes the subject and is active; no manager means no chain and no siblings; the first ancestor has the subject's manager as its distinguished name; at most six ancestors, all inactive and without siblings; no sibling is active or the subject; the chain is exactly BuildManagerChain from the subject's manager at depth 0 and the siblings are exactly Siblings, so every fact about those two members holds of the assembled chart |
| Users.UserRepository.Create | backend/src/TeamSync.Persistency/Repositories/UserRepository.cs:32-36 | appends the user and returns it |
| Users.UserRepository.Update | backend/src/TeamSync.Persistency/Repositories/UserRepository.cs:38-42 | replaces the first user with the same username, if any, and returns the argument either way |
| OrgChartView.ChainIsBelow | frontend/components/OrgChart.tsx:17-24 | the chain's length is the number of nested manager links, and no chain node sits as high as the node owning the chain |
| OrgChartView.TopDown | frontend/components/OrgChart.tsx:17-24 | the top-down chain is the backend's direct-manager-first list reversed |
| OrgChartView.FlattenManagerChain | frontend/components/OrgChart.tsx:17-24 | the while loop yields TopDown: empty without a manager; length equals the number of nested links; the root never appears; the last element is the direct manager; the first has no manager; each element's manager is the element before it |
| OrgChartView.SplitSiblings | frontend/components/OrgChart.tsx:180-193 | the left and right slices concatenate to the sibling list, and the left one has ceil(n/2) elements (equal to or one more than the right) |
| OrgChartView.Passive | frontend/components/OrgChart.tsx:164-196 | one box per node, in the nodes' order, each drawn with isActive false |
| OrgChartView.RenderOrder | frontend/components/OrgChart.tsx:164-196 | box i is: chain node i (top-down) for i below the chain length; then sibling i - chain length for the first ceil(n/2) siblings; then the root, drawn active; then the remaining siblings in order; every other box is drawn inactive |
| OrgChartView.TilesLayout | frontend/components/OrgChart.tsx:180-196 | concatenating the chain, the left slice, the root and the right slice puts every box where RenderOrder says |
| OrgChartView.OnlyRootIsActive | frontend/components/OrgChart.tsx:164-196 | the root's box sits right after the chain and the left half, and it is the only box drawn active |
| OrgChartView.FlattenedChartFollowsManagers | backend/src/TeamSync.Persistency/Repositories/UserRepository.cs:74-84 | for a chart built from a table, the flattened chain has at most six inactive nodes, ends on the subject's direct manager and goes down by manager references |
| OrgChartView.FlattenedChainFollowsManagers | backend/src/TeamSync.Persistency/Repositories/UserRepository.cs:49-66 | the same for any chain built from a distinguished name: at most six inactive nodes, the last one carrying that name, each one the manager of the next |
| OrgChartView.ReversedChainIsLinked | frontend/components/OrgChart.tsx:17-24 | reversing a manager-linked list keeps the link: each node's predecessor is named by the manager reference of the node's directory entry |
| Teams.TeamRepository.Create | backend/src/TeamSync.Persistency/Repositories/TeamRepository.cs:17-21 | appends the team and returns it |
| Teams.TeamRepository.GetAll | backend/src/TeamSync.Persistency/Repositories/TeamRepository.cs:29-32 | returns the whole collection and changes nothing |
| Teams.TeamRepository.GetById | backend/src/TeamSync.Persistency/Repositories/TeamRepository.cs:23-27 | the first team with the id; none exactly when no team has it |
| Teams.TeamRepository.GetByProjectId | backend/src/TeamSync.Persistency/Repositories/TeamRepository.cs:34-38 | exactly the teams with that project id, in order, each with its stored multiplicity |
| Teams.TeamRepository.GetByMember | backend/src/TeamSync.Persistency/Repositories/TeamRepository.cs:40-44 | exactly the teams whose members contain the username, in order, with multiplicity |
| Teams.TeamRepository.Update | backend/src/TeamSync.Persistency/Repositories/TeamRepository.cs:46-51 | replaces the first team with the id and returns the replacement; none and no change exactly when no team has the id |
| Teams.TeamRepository.Delete | backend/src/TeamSync.Persistency/Repositories/TeamRepository.cs:53-58 | true exactly when a team had the id; then that team alone is removed, and with unique ids none with the id remains; false leaves the table unchanged |
| Teams.TeamRepository.SetLeader | backend/src/TeamSync.Persistency/Repositories/TeamRepository.cs:60-66 | only the leader of the first team with the id changes (members untouched, leader need not be a member); none and no change for an unknown id |
| Teams.TeamRepository.AddMember | backend/src/TeamSync.Persistency/Repositories/TeamRepository.cs:68-80 | appends the username to the first team with the id not yet listing it and returns it; when every team with the id lists it, nothing changes and the current team is returned; none exactly for an unknown id; never a duplicate |
| Teams.TeamRepository.RemoveMember | backend/src/TeamSync.Persistency/Repositories/TeamRepository.cs:82-88 | pulls every occurrence from the first team with the id, keeping the rest in order, and changes nothing else; none and no change for an unknown id |
| Teams.AddMemberTwice | backend/src/TeamSync.Persistency/Repositories/TeamRepository.cs:68-80 | with unique ids, re-adding a member changes nothing and returns the same team |
| Projects.ProjectRepository.GetAll | backend/src/TeamSync.Persistency/Repositories/ProjectRepository.cs:17-20 | returns the whole collection and changes nothing |
| Projects.ProjectRepository.GetById | backend/src/TeamSync.Persistency/Repositories/ProjectRepository.cs:22-26 | the first project with the id; none exactly when no project has it |
| Projects.ProjectRepository.GetByOwner | backend/src/TeamSync.Persistency/Repositories/ProjectRepository.cs:28-32 | exactly the projects of that owner, in order, with multiplicity |
| Projects.ProjectRepository.Create | backend/src/TeamSync.Persistency/Repositories/ProjectRepository.cs:34-38 | appends exactly one project and returns it |
| Projects.ProjectRepository.Update | backend/src/TeamSync.Persistency/Repositories/ProjectRepository.cs:40-51 | fails exactly when the id is missing or the stored project equals the replacement, and then nothing changes; otherwise replaces that project alone and returns it |
| Projects.ProjectRepository.Delete | backend/src/TeamSync.Persistency/Repositories/ProjectRepository.cs:53-58 | true exactly when a project had the id, and then only that project is removed; false leaves the table unchanged |
| Projects.Overwrite | backend/src/TeamSync.Application/CQRS/Project/Commands/UpdateProject/UpdateProjectCommandHandler.cs:24-27 | title, description, owner and members come from the request; the id is kept |
| Projects.UpdateProjectCommandHandler.Handle | backend/src/TeamSync.Application/CQRS/Project/Commands/UpdateProject/UpdateProjectCommandHandler.cs:16-31 | an unknown id gives none with no update; a request equal to the stored values gives the repository's error; otherwise the overwritten project is stored and returned with the same id |
| Comments.CommentRepository.Create | backend/src/TeamSync.Persistency/Repositories/CommentRepository.cs:17-22 | stamps the date with the current time whatever was supplied, appends exactly that comment and returns it |
| Comments.CommentRepository.GetAll | backend/src/TeamSync.Persistency/Repositories/CommentRepository.cs:24-27 | returns every stored comment and changes nothing |
| Comments.CommentRepository.GetByDateRange | backend/src/TeamSync.Persistency/Repositories/CommentRepository.cs:29-36 | exactly the comments with start <= date <= end on tick counts, both ends inclusive, in order, with multiplicity; empty when start > end (millisecond truncation of the bounds: see Left out) |
| Comments.CommentRepository.GetByProjectId | backend/src/TeamSync.Persistency/Repositories/CommentRepository.cs:38-42 | exactly the comments of that project, in order, with multiplicity |
| Auth.ResponseFor | backend/src/TeamSync.Application/Services/AuthService.cs:51-63 | the token is the token service's output for the user; full name, username and employee id are the user's |
| Auth.Login | backend/src/TeamSync.Application/Services/AuthService.cs:18-64 | admin/admin (exact, case-sensitive) yields the Administrator / admin / ADMIN-001 response; any other request fails exactly when the directory returns nothing, and otherwise carries the directory user's fields and token |
| Auth.AdminBypassIgnoresDirectory | backend/src/TeamSync.Application/Services/AuthService.cs:20-40 | on the bypass the answer is the same for every directory |
| Auth.LoginEndpoint | backend/src/TeamSync.API/Controllers/AuthController.cs:18-34 | BadRequest exactly when a field is empty; Unauthorized exactly when the service returns nothing for a complete request; Ok carries exactly the service's response |
| Auth.EmptyFieldNeverReachesService | backend/src/TeamSync.API/Controllers/AuthController.cs:21-24 | with an empty field the result is the same for every service |
| Auth.EndpointDecision | backend/src/TeamSync.API/Controllers/AuthController.cs:18-34 | end to end, admin/admin is always Ok as the administrator, and any other complete request is Ok exactly when the directory accepts it |

## Left out

- `LdapService` (the network bind and the attribute search) is the directory
  function parameter. Its own defaults (a missing display name becomes the
  username, a missing employee id becomes "N/A") are not modelled.
- `TokenService` (HMAC-SHA256 signing, token ids, expiry and the wall clock)
  is the token function parameter.
- The store driver is not modelled beyond first-match and filter semantics.
  This leaves out:
  - the id it generates for an empty `Id` on insert;
  - duplicate-key errors;
  - the rule that a replacement may not change `_id`;
  - the atomicity of single updates;
  - the race between the two steps of `AddMemberAsync`, which is concurrency.
- Uniqueness of ids is not an invariant of the tables. Properties that need
  it (`Teams.AddMemberTwice`, the last clause of `Teams.TeamRepository.Delete`)
  take it as a stated hypothesis.
- The mappers and the one-line CQRS handlers and queries are taken as identity
  and pass-through. So a `Project` value stands for its `ProjectDto`.
- The HTTP controllers other than `AuthController` are not part of this
  model. They map a null result or `false` to NotFound, with two further
  cases. `UsersController.GetUserPhoto` also answers NotFound for an empty
  photo. `TeamsController.GetMyTeams` answers Unauthorized when the caller's
  identity name is null or empty.
- `Program.cs` (dependency injection, JWT middleware, CORS, Swagger) and the
  database context are configuration.
- The React rendering, fetching, loading and error state, drag and pan, and
  the floating-point zoom clamp in `OrgChart.tsx` are left out. So are the
  other components, including the case-insensitive client-side admin shortcut
  and the mock login fallbacks in `Login.tsx`. `Math.ceil(n / 2)` is exact on
  lengths, so it is written as `(n + 1) / 2`.
- A login by username alone, with no password check, is not what
  `AuthService.cs` does, and it is not modelled.
- Projects.ProjectRepository.Update: a stored field that is `null` and a
  replacement field that is `""` (or a `null` members array and `[]`) are the
  same value in the model. The store counts that as a modification, so the
  model answers "not modified" where the store succeeds.
- Projects.UpdateProjectCommandHandler.Handle: inherits the same difference,
  so a request that only turns a stored `null` into `""` fails in the model
  and succeeds in the store.
- The same conflation applies to the equality filters. For example,
  `GetByOwner("")` matches projects whose owner is `null` in the model but
  not in the store.
- Users.GetByUsername and Users.UserRepository.Update, with an empty
  username: the model finds, or replaces, a stored user whose username is
  `null`. The store's filter on `""` does not match that record, so it finds
  nothing and replaces nothing.
- Ids that are not 24 hexadecimal digits are not modelled as errors. `Id` of
  a team, a project and a comment, and `Comment.ProjectId`, are stored as
  ObjectIds, and the driver throws a `FormatException` when it serialises
  such a value. The model returns none/false, or appends, instead:
  - Teams.TeamRepository.GetById, Update, Delete, SetLeader, AddMember and
    RemoveMember;
  - Projects.ProjectRepository.GetById, Update and Delete;
  - Projects.UpdateProjectCommandHandler.Handle;
  - Teams.TeamRepository.Create and Projects.ProjectRepository.Create, with a
    non-empty malformed id (an empty id is generated on insert);
  - Comments.CommentRepository.Create, with a non-empty malformed id, or with
    any malformed project id, the empty one included. `ProjectId` is not the
    document id, so nothing generates it. A comment request without a
    project id therefore fails in the store, and the model appends it;
  - Comments.CommentRepository.GetByProjectId.
- Comments.CommentRepository.Create: stores `now` exactly. BSON dates keep
  milliseconds, so the stored date is `now` truncated to the millisecond,
  while the returned comment keeps the full tick count. A later read can
  therefore see a different date than `Create` returned.
- Comments.CommentRepository.GetByDateRange: compares raw tick counts. The
  store sends `startDate` and `endDate` as BSON dates, which cuts them to the
  millisecond as well. So the store also returns a comment dated in the same
  millisecond as `startDate` but below it, or in the same millisecond as
  `endDate` but above it, which the model leaves out. `startDate` and
  `endDate` stand for the UTC instants the driver compares. DateTime `Kind`
  is not modelled, and neither is the driver's conversion of a non-UTC bound
  from server-local time to UTC. A bound read from a query string without
  an offset is such a value, so on a server off UTC the store compares
  against a shifted instant. For UTC bounds, truncation keeps order, so
  every comment the model returns is also returned by the store.
