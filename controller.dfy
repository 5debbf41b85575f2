/** The controller's handlers run against a mutable store: each awaited store call is an
    assignment to one of the store's fields, in the order the handler makes them. Every
    handler is proved to end in the state and reply its `Handlers` function describes, and to
    keep the store invariant. */
module Controller {
  import opened Optional
  import opened JsText
  import opened Fences
  import opened Generator
  import opened Records
  import opened Handlers
  import opened RevisionProperties
  import opened HandlerProperties

  class ProjectStore {
    var users: map<UserId, User>
    var projects: map<Id, Project>
    var versions: seq<Version>
    var conversations: seq<Entry>

    /** The store's contents as a value. */
    function State(): StoreState
      reads this
    {
      StoreState(users, projects, versions, conversations)
    }

    ghost predicate Valid()
      reads this
    {
      Consistent(State())
    }

    constructor (init: StoreState)
      requires Consistent(init)
      ensures State() == init && Valid()
    {
      users := init.users;
      projects := init.projects;
      versions := init.versions;
      conversations := init.conversations;
    }

    /** The catch block of `makeRevision`: add five credits back to the caller. */
    method RefundInCatch(userId: Option<UserId>) returns (r: Response)
      modifies this
      ensures Outcome(State(), r) == CatchRefund(old(State()), userId)
    {
      if userId.Some? && userId.value in users {
        users := users[userId.value := User(users[userId.value].credits + RevisionCost)];
        r := ServerError;
      } else {
        r := NoResponse;
      }
    }

    /** `makeRevision`. */
    method MakeRevision(userId: Option<UserId>, projectId: Id, message: Option<string>, enhanced: Gen, generated: Gen,
                        fault: Fault, newVersionId: Id) returns (r: Response)
      requires Valid() && FreshVersionId(State(), newVersionId)
      modifies this
      ensures Valid()
      ensures Outcome(State(), r) == RevisionOutcome(old(State()), userId, projectId, message, enhanced, generated, fault, newVersionId)
      ensures old(versions) <= versions
    {
      ghost var s0 := State();
      if message.Some? {
        IsBlankIsEmptyTrim(message);
      }
      if fault == FailAt(FindUser) {
        r := RefundInCatch(userId);
      } else if userId.None? || userId.value !in users {
        r := Unauthorized;
      } else if users[userId.value].credits < RevisionCost {
        r := InsufficientCredits;
      } else if message.None? || Trim(message.value) == "" {
        r := InvalidRequest;
      } else if fault == FailAt(FindProject) {
        r := RefundInCatch(userId);
      } else if projectId !in projects || projects[projectId].userId != userId.value {
        r := ProjectNotFound;
      } else if fault == FailAt(LogRequest) {
        r := RefundInCatch(userId);
      } else {
        conversations := conversations + [Entry(projectId, UserRole, message.value)];
        r := ChargeAndGenerate(userId, projectId, enhanced, generated, fault, newVersionId);
      }
      RevisionKeepsConsistent(s0, userId, projectId, message, enhanced, generated, fault, newVersionId);
      VersionsAndProjects(s0, userId, projectId, message, enhanced, generated, fault, newVersionId);
    }

    /** The debit, the enhancement and its entry, then the generation. */
    method ChargeAndGenerate(userId: Option<UserId>, projectId: Id, enhanced: Gen, generated: Gen, fault: Fault,
                             newVersionId: Id) returns (r: Response)
      requires KnownUser(State(), userId) && projectId in projects
      modifies this
      ensures Outcome(State(), r) == Charge(old(State()), userId, projectId, enhanced, generated, fault, newVersionId)
    {
      if fault == FailAt(Debit) {
        r := RefundInCatch(userId);
      } else {
        var u := userId.value;
        users := users[u := User(users[u].credits - RevisionCost)];
        if enhanced.Throws? || fault == FailAt(LogEnhancement) {
          r := RefundInCatch(userId);
        } else {
          conversations := conversations + [Entry(projectId, AssistantRole, EnhancementNote(enhanced))];
          r := StoreGeneration(userId, projectId, generated, fault, newVersionId);
        }
      }
    }

    /** The generation's outcome: the failure entry and the refund, or the new version, the
        success entry and the repointed project. */
    method StoreGeneration(userId: Option<UserId>, projectId: Id, generated: Gen, fault: Fault, newVersionId: Id)
      returns (r: Response)
      requires KnownUser(State(), userId) && projectId in projects
      modifies this
      ensures Outcome(State(), r) == Generate(old(State()), userId, projectId, generated, fault, newVersionId)
    {
      var u := userId.value;
      if generated.Throws? {
        r := RefundInCatch(userId);
      } else if generated.Missing? || generated.text == "" {
        if fault == FailAt(LogFailure) {
          r := RefundInCatch(userId);
        } else {
          conversations := conversations + [Entry(projectId, AssistantRole, FailureNote)];
          if fault == FailAt(Refund) {
            r := RefundInCatch(userId);
          } else {
            users := users[u := User(users[u].credits + RevisionCost)];
            r := GenerationFailed;
          }
        }
      } else {
        var code := ExtractCode(generated.text);
        if fault == FailAt(CreateVersion) {
          r := RefundInCatch(userId);
        } else {
          versions := versions + [Version(newVersionId, projectId, code, ChangeDescription)];
          if fault == FailAt(LogSuccess) {
            r := RefundInCatch(userId);
          } else {
            conversations := conversations + [Entry(projectId, AssistantRole, SuccessNote)];
            if fault == FailAt(UpdateProject) {
              r := RefundInCatch(userId);
            } else {
              projects := projects[projectId := projects[projectId].(currentCode := code,
                                                                     currentVersionIndex := newVersionId)];
              r := Done;
            }
          }
        }
      }
    }

    /** `rollbackToVersion`. */
    method RollbackToVersion(userId: Option<UserId>, projectId: Id, versionId: Id, fault: Fault) returns (r: Response)
      requires Valid()
      modifies this
      ensures Valid()
      ensures Outcome(State(), r) == RollbackOutcome(old(State()), userId, projectId, versionId, fault)
      ensures versions == old(versions) && users == old(users)
    {
      ghost var s0 := State();
      if userId.None? {
        r := Unauthorized;
      } else if fault == FailAt(FindProject) {
        r := ServerError;
      } else if projectId !in projects || projects[projectId].userId != userId.value {
        r := ProjectNotFound;
      } else {
        var found := FindVersion(VersionsOf(versions, projectId), versionId);
        if found.None? {
          r := VersionNotFound;
        } else if fault == FailAt(UpdateProject) {
          r := ServerError;
        } else {
          projects := projects[projectId := projects[projectId].(currentCode := found.value.code,
                                                                 currentVersionIndex := found.value.id)];
          if fault == FailAt(LogRollback) {
            r := ServerError;
          } else {
            conversations := conversations + [Entry(projectId, AssistantRole, RollbackNote)];
            r := Done;
          }
        }
      }
      RollbackKeepsConsistent(s0, userId, projectId, versionId, fault);
    }

    /** `saveProjectCode`. */
    method SaveProjectCode(userId: Option<UserId>, projectId: Id, code: Option<string>, fault: Fault) returns (r: Response)
      requires Valid()
      modifies this
      ensures Valid()
      ensures Outcome(State(), r) == SaveOutcome(old(State()), userId, projectId, code, fault)
      ensures versions == old(versions) && users == old(users) && conversations == old(conversations)
    {
      ghost var s0 := State();
      if userId.None? {
        r := Unauthorized;
      } else if code.None? || code.value == "" {
        r := InvalidRequest;
      } else if fault == FailAt(FindProject) {
        r := ServerError;
      } else if projectId !in projects || projects[projectId].userId != userId.value {
        r := ProjectNotFound;
      } else if fault == FailAt(UpdateProject) {
        r := ServerError;
      } else {
        projects := projects[projectId := projects[projectId].(currentCode := code.value, currentVersionIndex := "")];
        r := Done;
      }
      SaveKeepsConsistent(s0, userId, projectId, code, fault);
    }

    /** `deleteProject`. */
    method DeleteProject(userId: Option<UserId>, projectId: Id, fault: Fault) returns (r: Response)
      requires Valid()
      modifies this
      ensures Valid()
      ensures Outcome(State(), r) == DeleteOutcome(old(State()), userId, projectId, fault)
      ensures versions == old(versions) && users == old(users) && conversations == old(conversations)
    {
      if fault == FailAt(RemoveProject) || userId.None? || projectId !in projects || projects[projectId].userId != userId.value {
        r := ServerError;
      } else {
        projects := projects - {projectId};
        r := Done;
      }
    }

    /** `getProjectById`: reads the store and changes nothing. */
    method GetProjectById(projectId: Id, fault: Fault) returns (r: Response)
      ensures r == Handlers.GetProjectById(State(), projectId, fault)
      ensures r.Code? <==> fault != FailAt(FindProject) && projectId in projects && PubliclyVisible(projects[projectId])
      ensures r.Code? ==> r.code == projects[projectId].currentCode
      ensures !r.Code? ==> r == ServerError || r == ProjectNotFound
    {
      if fault == FailAt(FindProject) {
        r := ServerError;
      } else if projectId !in projects || !projects[projectId].isPublished || projects[projectId].currentCode == "" {
        r := ProjectNotFound;
      } else {
        r := Code(projects[projectId].currentCode);
      }
    }

    /** `getProjectPreview`: reads the store and changes nothing. */
    method GetProjectPreview(userId: Option<UserId>, projectId: Id, fault: Fault) returns (r: Response)
      ensures r == Handlers.GetProjectPreview(State(), userId, projectId, fault)
    {
      if userId.None? {
        r := Unauthorized;
      } else if fault == FailAt(FindProject) {
        r := ServerError;
      } else if projectId !in projects || projects[projectId].userId != userId.value {
        r := ProjectNotFound;
      } else {
        r := ProjectView(projects[projectId], VersionsOf(versions, projectId));
      }
    }
  }
}
