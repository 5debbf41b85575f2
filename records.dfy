/** The stored records the project controller works on (users, website projects, versions,
    conversation entries), the store as one value, and the lookups over it. */
module Records {
  import opened Optional

  type Id = string

  /** A user's id. It is never empty, so an empty id in a request names no user: it fails the
      `!userId` tests of the handlers like a missing one, and is given to them as `None`. */
  type UserId = id: Id | id != "" witness "u"

  /** Credits one revision attempt costs. */
  const RevisionCost: int := 5

  datatype Role = UserRole | AssistantRole

  datatype User = User(credits: int)

  /** A website project. `currentVersionIndex` is the id of the version the live code came
      from, or "" once the code has been saved by hand. */
  datatype Project = Project(userId: UserId, currentCode: string, currentVersionIndex: Id, isPublished: bool)

  /** An immutable snapshot of a project's code. */
  datatype Version = Version(id: Id, projectId: Id, code: string, description: string)

  /** One line of a project's conversation log. */
  datatype Entry = Entry(projectId: Id, role: Role, content: string)

  /** The whole store: users and projects by id, and the append-only version and
      conversation tables in the order they were written. */
  datatype StoreState = StoreState(
    users: map<UserId, User>,
    projects: map<Id, Project>,
    versions: seq<Version>,
    conversations: seq<Entry>)

  /** The awaited store calls of the controller, one per call site. A fault names the one
      call that throws during a request. */
  datatype StoreCall =
    | FindUser | FindProject | LogRequest | Debit | LogEnhancement | LogFailure | Refund
    | CreateVersion | LogSuccess | UpdateProject | LogRollback | RemoveProject

  datatype Fault = NoFault | FailAt(call: StoreCall)

  /** The reply a handler sends, classified (status codes and message texts left out). */
  datatype Response =
    | Done                                          // 200 with a message
    | Code(code: string)                            // the public view's code
    | ProjectView(project: Project, versions: seq<Version>)
    | Unauthorized                                  // 401
    | InsufficientCredits                           // 403
    | InvalidRequest                                // 400
    | ProjectNotFound                               // 404 "Project not found"
    | VersionNotFound                               // 404 "Version not found"
    | GenerationFailed                              // 500 "Failed to generate code"
    | ServerError                                   // 500 from a catch block
    | NoResponse                                    // the catch block itself threw

  /** A handler's effect: the store afterwards and the reply. */
  datatype Outcome = Outcome(state: StoreState, response: Response)

  predicate Owns(s: StoreState, userId: Id, projectId: Id) {
    projectId in s.projects && s.projects[projectId].userId == userId
  }

  /** A version with this id belongs to this project. */
  predicate HasVersion(versions: seq<Version>, projectId: Id, versionId: Id) {
    exists v :: v in versions && v.projectId == projectId && v.id == versionId
  }

  // ----- Lookups -----

  /** The versions of one project (what including a project's versions in a query returns;
      no order is requested, so only membership is promised). */
  function VersionsOf(versions: seq<Version>, projectId: Id): (r: seq<Version>)
    ensures forall v :: v in r <==> v in versions && v.projectId == projectId
  {
    if versions == [] then []
    else
      var rest := VersionsOf(versions[1..], projectId);
      if versions[0].projectId == projectId then [versions[0]] + rest else rest
  }

  /** `versions.find(v => v.id === versionId)`: the first version with that id. */
  function FindVersion(versions: seq<Version>, versionId: Id): (r: Option<Version>)
    ensures r.None? <==> forall v :: v in versions ==> v.id != versionId
    ensures r.Some? ==> exists k :: (0 <= k < |versions| && versions[k] == r.value
      && r.value.id == versionId && forall j :: 0 <= j < k ==> versions[j].id != versionId)
  {
    if versions == [] then None
    else if versions[0].id == versionId then Some(versions[0])
    else
      var r := FindVersion(versions[1..], versionId);
      if r.Some? then
        ghost var k :| 0 <= k < |versions[1..]| && versions[1..][k] == r.value
          && r.value.id == versionId && forall j :: 0 <= j < k ==> versions[1..][j].id != versionId;
        assert versions[k + 1] == r.value;
        r
      else
        assert forall v :: v in versions ==> v == versions[0] || v in versions[1..];
        r
  }

  /** Looking a version up among a project's versions finds one exactly when the project has
      a version with that id, and what it finds is such a version. */
  lemma FindVersionOfProject(versions: seq<Version>, projectId: Id, versionId: Id)
    ensures var r := FindVersion(VersionsOf(versions, projectId), versionId);
      && (r.Some? <==> HasVersion(versions, projectId, versionId))
      && (r.Some? ==> r.value in versions && r.value.projectId == projectId && r.value.id == versionId)
  {
    var r := FindVersion(VersionsOf(versions, projectId), versionId);
    if r.Some? {
      assert r.value in VersionsOf(versions, projectId);
    }
  }

  // ----- The store invariant -----

  predicate CreditsNonNegative(users: map<UserId, User>) {
    forall u :: u in users ==> users[u].credits >= 0
  }

  /** Version ids are non-empty (so "" can only mean "no version") and unique. */
  predicate WellIdentified(versions: seq<Version>) {
    && (forall i :: 0 <= i < |versions| ==> versions[i].id != "")
    && (forall i, j :: 0 <= i < j < |versions| ==> versions[i].id != versions[j].id)
  }

  /** Every project's version pointer is "" or names one of that project's versions. */
  predicate PointersResolve(s: StoreState) {
    forall p :: p in s.projects ==>
      s.projects[p].currentVersionIndex == "" || HasVersion(s.versions, p, s.projects[p].currentVersionIndex)
  }

  predicate Consistent(s: StoreState) {
    CreditsNonNegative(s.users) && WellIdentified(s.versions) && PointersResolve(s)
  }

  /** An id the store may assign to a new version. */
  predicate FreshVersionId(s: StoreState, id: Id) {
    id != "" && forall v :: v in s.versions ==> v.id != id
  }

  // ----- Single writes -----

  function Log(s: StoreState, projectId: Id, role: Role, content: string): StoreState {
    s.(conversations := s.conversations + [Entry(projectId, role, content)])
  }

  function AddCredits(s: StoreState, userId: Id, delta: int): StoreState
    requires userId in s.users
  {
    s.(users := s.users[userId := User(s.users[userId].credits + delta)])
  }

  function AddVersion(s: StoreState, v: Version): StoreState {
    s.(versions := s.versions + [v])
  }

  function Repoint(s: StoreState, projectId: Id, code: string, versionIndex: Id): StoreState
    requires projectId in s.projects
  {
    s.(projects := s.projects[projectId := s.projects[projectId].(currentCode := code, currentVersionIndex := versionIndex)])
  }

  // ----- What each write does to the invariant -----

  /** Appending a version whose id is fresh keeps ids well formed and pointers resolving. */
  lemma AddVersionKeepsConsistent(s: StoreState, v: Version)
    requires Consistent(s) && FreshVersionId(s, v.id)
    ensures Consistent(AddVersion(s, v))
  {
    var vs := AddVersion(s, v).versions;
    assert v in vs;
    forall i, j | 0 <= i < j < |vs|
      ensures vs[i].id != vs[j].id
    {
      if j == |s.versions| {
        assert vs[i] in s.versions;
      }
    }
    forall p | p in s.projects && s.projects[p].currentVersionIndex != ""
      ensures HasVersion(vs, p, s.projects[p].currentVersionIndex)
    {
      var w :| w in s.versions && w.projectId == p && w.id == s.projects[p].currentVersionIndex;
      assert w in vs;
    }
  }

  /** Pointing a project at no version, or at one of its own versions, keeps the invariant. */
  lemma RepointKeepsConsistent(s: StoreState, projectId: Id, code: string, versionIndex: Id)
    requires Consistent(s) && projectId in s.projects
    requires versionIndex == "" || HasVersion(s.versions, projectId, versionIndex)
    ensures Consistent(Repoint(s, projectId, code, versionIndex))
  {
  }

  /** Replacing the balances by non-negative ones keeps the invariant. */
  lemma SetCreditsKeepsConsistent(s: StoreState, users: map<UserId, User>)
    requires Consistent(s) && CreditsNonNegative(users)
    ensures Consistent(s.(users := users))
  {
  }
}
