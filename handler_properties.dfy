/** What the rollback, save, delete and the two read handlers guarantee, and what holds
    across handlers. */
module HandlerProperties {
  import opened Optional
  import opened JsText
  import opened Fences
  import opened Generator
  import opened Records
  import opened Handlers
  import opened RevisionProperties

  // ----- rollbackToVersion -----

  /** Rollback rejects an anonymous caller, then a project that is not the caller's, then a
      version id that is not among that project's versions, and a rejection changes nothing. */
  lemma RollbackRejections(s: StoreState, userId: Option<UserId>, projectId: Id, versionId: Id, fault: Fault)
    ensures var o := RollbackOutcome(s, userId, projectId, versionId, fault);
      && (o.response == Unauthorized <==> userId.None?)
      && (o.response == ProjectNotFound <==>
            userId.Some? && fault != FailAt(FindProject) && !Owns(s, userId.value, projectId))
      && (o.response == VersionNotFound <==>
            userId.Some? && fault != FailAt(FindProject) && Owns(s, userId.value, projectId)
            && !HasVersion(s.versions, projectId, versionId))
      && (o.response in {Unauthorized, ProjectNotFound, VersionNotFound} ==> o.state == s)
  {
    FindVersionOfProject(s.versions, projectId, versionId);
  }

  /** A successful rollback points the project at a version of its own with the requested id
      and copies that version's code; it moves no credits, creates no version and logs one
      assistant entry. Whatever the outcome, balances and versions are untouched. The repoint
      and the entry are two store calls: when logging the entry throws, the caller gets an
      error and nothing is logged, yet the project already points at the version. */
  lemma RollbackRestoresVersion(s: StoreState, userId: Option<UserId>, projectId: Id, versionId: Id, fault: Fault)
    ensures var o := RollbackOutcome(s, userId, projectId, versionId, fault);
      && o.state.users == s.users
      && o.state.versions == s.versions
      && (o.response == Done <==>
            userId.Some? && Owns(s, userId.value, projectId) && HasVersion(s.versions, projectId, versionId)
            && fault != FailAt(FindProject) && fault != FailAt(UpdateProject) && fault != FailAt(LogRollback))
      && (o.response == Done || (fault == FailAt(LogRollback) && userId.Some? && Owns(s, userId.value, projectId)
                                   && HasVersion(s.versions, projectId, versionId)) ==>
            exists v :: v in s.versions && v.projectId == projectId && v.id == versionId
              && o.state.projects == s.projects[projectId := s.projects[projectId].(
                   currentCode := v.code, currentVersionIndex := versionId)])
      && (o.response == Done ==>
            o.state.conversations == s.conversations + [Entry(projectId, AssistantRole, RollbackNote)])
      && (fault == FailAt(LogRollback) ==> o.response != Done && o.state.conversations == s.conversations)
  {
    FindVersionOfProject(s.versions, projectId, versionId);
  }

  /** With unique version ids the restored code is the code of the one version with that id. */
  lemma RollbackCodeIsVersionCode(s: StoreState, userId: Option<UserId>, projectId: Id, versionId: Id, fault: Fault,
                                  v: Version)
    requires WellIdentified(s.versions)
    requires v in s.versions && v.id == versionId
    requires RollbackOutcome(s, userId, projectId, versionId, fault).response == Done
    ensures var p := RollbackOutcome(s, userId, projectId, versionId, fault).state.projects;
      projectId in p && p[projectId].currentCode == v.code && p[projectId].currentVersionIndex == versionId
  {
    RollbackRestoresVersion(s, userId, projectId, versionId, fault);
    var o := RollbackOutcome(s, userId, projectId, versionId, fault);
    var w :| w in s.versions && w.projectId == projectId && w.id == versionId
      && o.state.projects == s.projects[projectId := s.projects[projectId].(
           currentCode := w.code, currentVersionIndex := versionId)];
    var i :| 0 <= i < |s.versions| && s.versions[i] == v;
    var j :| 0 <= j < |s.versions| && s.versions[j] == w;
    assert i == j;
  }

  lemma RollbackKeepsConsistent(s: StoreState, userId: Option<UserId>, projectId: Id, versionId: Id, fault: Fault)
    requires Consistent(s)
    ensures Consistent(RollbackOutcome(s, userId, projectId, versionId, fault).state)
  {
    FindVersionOfProject(s.versions, projectId, versionId);
    var o := RollbackOutcome(s, userId, projectId, versionId, fault);
    if userId.Some? && fault != FailAt(FindProject) && Owns(s, userId.value, projectId)
       && HasVersion(s.versions, projectId, versionId) && fault != FailAt(UpdateProject) {
      var found := FindVersion(VersionsOf(s.versions, projectId), versionId);
      RepointKeepsConsistent(s, projectId, found.value.code, found.value.id);
    }
  }

  // ----- saveProjectCode -----

  /** Save rejects an anonymous caller, then missing or empty code (whitespace is not
      trimmed away), then a project that is not the caller's; a rejection changes nothing. */
  lemma SaveRejections(s: StoreState, userId: Option<UserId>, projectId: Id, code: Option<string>, fault: Fault)
    ensures var o := SaveOutcome(s, userId, projectId, code, fault);
      && (o.response == Unauthorized <==> userId.None?)
      && (o.response == InvalidRequest <==> userId.Some? && (code.None? || code.value == ""))
      && (o.response == ProjectNotFound <==>
            userId.Some? && code.Some? && code.value != "" && fault != FailAt(FindProject)
            && !Owns(s, userId.value, projectId))
      && (o.response in {Unauthorized, InvalidRequest, ProjectNotFound} ==> o.state == s)
  {
  }

  /** A successful save stores the code exactly as sent and clears the version pointer; it
      creates no version, moves no credits and logs nothing. Only success changes the store. */
  lemma SaveOverwrites(s: StoreState, userId: Option<UserId>, projectId: Id, code: Option<string>, fault: Fault)
    ensures var o := SaveOutcome(s, userId, projectId, code, fault);
      && (o.response == Done <==>
            userId.Some? && code.Some? && code.value != "" && Owns(s, userId.value, projectId)
            && fault != FailAt(FindProject) && fault != FailAt(UpdateProject))
      && (o.response == Done ==>
            && o.state.projects == s.projects[projectId := s.projects[projectId].(
                 currentCode := code.value, currentVersionIndex := "")]
            && o.state.users == s.users
            && o.state.versions == s.versions
            && o.state.conversations == s.conversations)
      && (o.response != Done ==> o.state == s)
  {
  }

  /** Whitespace-only code is accepted and stored as it is: the check is for emptiness, not
      for blankness. */
  lemma SaveAcceptsWhitespace(s: StoreState, userId: Option<UserId>, projectId: Id, code: Option<string>)
    requires code.Some? && code.value != [] && AllWhitespace(code.value)
    requires userId.Some? && Owns(s, userId.value, projectId)
    ensures var o := SaveOutcome(s, userId, projectId, code, NoFault);
      o.response == Done && o.state.projects[projectId].currentCode == code.value
  {
  }

  lemma SaveKeepsConsistent(s: StoreState, userId: Option<UserId>, projectId: Id, code: Option<string>, fault: Fault)
    requires Consistent(s)
    ensures Consistent(SaveOutcome(s, userId, projectId, code, fault).state)
  {
    if SaveOutcome(s, userId, projectId, code, fault).response == Done {
      RepointKeepsConsistent(s, projectId, code.value, "");
    }
  }

  // ----- deleteProject -----

  /** Delete removes exactly the caller's project and nothing else: its versions and
      conversation entries stay in the store. Any other request is answered from the catch
      block and changes nothing. */
  lemma DeleteScoped(s: StoreState, userId: Option<UserId>, projectId: Id, fault: Fault)
    ensures var o := DeleteOutcome(s, userId, projectId, fault);
      && (o.response == Done <==> userId.Some? && Owns(s, userId.value, projectId) && fault != FailAt(RemoveProject))
      && (o.response != Done ==> o.response == ServerError && o.state == s)
      && (o.response == Done ==>
            && o.state.projects.Keys == s.projects.Keys - {projectId}
            && (forall p :: p in o.state.projects ==> o.state.projects[p] == s.projects[p])
            && o.state.users == s.users
            && o.state.versions == s.versions
            && o.state.conversations == s.conversations)
  {
  }

  lemma DeleteKeepsConsistent(s: StoreState, userId: Option<UserId>, projectId: Id, fault: Fault)
    requires Consistent(s)
    ensures Consistent(DeleteOutcome(s, userId, projectId, fault).state)
  {
  }

  // ----- getProjectById -----

  /** The public view returns code exactly when the project exists, is published and has
      non-empty code, and then it is the project's current code. */
  lemma PublicViewIff(s: StoreState, projectId: Id, fault: Fault, code: string)
    ensures GetProjectById(s, projectId, fault) == Code(code) <==>
      && fault != FailAt(FindProject)
      && projectId in s.projects && s.projects[projectId].isPublished
      && s.projects[projectId].currentCode != "" && s.projects[projectId].currentCode == code
  {
  }

  /** The public view does not depend on who owns the project. */
  lemma PublicViewIgnoresOwner(s: StoreState, projectId: Id, fault: Fault, owner: UserId)
    requires projectId in s.projects
    ensures GetProjectById(s.(projects := s.projects[projectId := s.projects[projectId].(userId := owner)]), projectId, fault)
         == GetProjectById(s, projectId, fault)
  {
  }

  /** Unpublishing a project hides it from the public view. */
  lemma UnpublishHides(s: StoreState, projectId: Id, fault: Fault)
    requires projectId in s.projects && fault != FailAt(FindProject)
    ensures GetProjectById(s.(projects := s.projects[projectId := s.projects[projectId].(isPublished := false)]), projectId, fault)
         == ProjectNotFound
  {
  }

  // ----- getProjectPreview -----

  /** The preview shows only the caller's own project, with exactly that project's versions. */
  lemma PreviewScoped(s: StoreState, userId: Option<UserId>, projectId: Id, fault: Fault)
    ensures var r := GetProjectPreview(s, userId, projectId, fault);
      && (r.ProjectView? <==> userId.Some? && fault != FailAt(FindProject) && Owns(s, userId.value, projectId))
      && (r.ProjectView? ==>
            && r.project == s.projects[projectId]
            && r.project.userId == userId.value
            && (forall v :: v in r.versions <==> v in s.versions && v.projectId == projectId))
      && (r == Unauthorized <==> userId.None?)
  {
  }

  // ----- Across handlers -----

  /** Versions are never altered or removed: every handler leaves the existing versions as a
      prefix of the new list. */
  lemma VersionsAreImmutable(s: StoreState, userId: Option<UserId>, projectId: Id, message: Option<string>,
                             enhanced: Gen, generated: Gen, versionId: Id, code: Option<string>,
                             fault: Fault, newVersionId: Id)
    ensures s.versions <= RevisionOutcome(s, userId, projectId, message, enhanced, generated, fault, newVersionId).state.versions
    ensures s.versions == RollbackOutcome(s, userId, projectId, versionId, fault).state.versions
    ensures s.versions == SaveOutcome(s, userId, projectId, code, fault).state.versions
    ensures s.versions == DeleteOutcome(s, userId, projectId, fault).state.versions
  {
    VersionsAndProjects(s, userId, projectId, message, enhanced, generated, fault, newVersionId);
  }

  /** Rolling back to a version of the caller's own project succeeds and copies that
      version's code. */
  lemma RollbackToOwnVersion(s: StoreState, u: UserId, projectId: Id, w: Version)
    requires WellIdentified(s.versions) && Owns(s, u, projectId)
    requires w in s.versions && w.projectId == projectId
    ensures var o := RollbackOutcome(s, Some(u), projectId, w.id, NoFault);
      && o.response == Done
      && o.state.projects == s.projects[projectId := s.projects[projectId].(currentCode := w.code, currentVersionIndex := w.id)]
  {
    RollbackCodeIsVersionCode(s, Some(u), projectId, w.id, NoFault, w);
    RollbackRestoresVersion(s, Some(u), projectId, w.id, NoFault);
  }

  /** Once a project has been repointed away from one of its versions, rolling back to that
      version gives the project back exactly as it was. */
  lemma RollbackUndoesRepoint(s: StoreState, s1: StoreState, u: UserId, projectId: Id, w: Version, code: string,
                              versionIndex: Id)
    requires Owns(s, u, projectId) && WellIdentified(s1.versions)
    requires w in s1.versions && w.projectId == projectId
    requires w.id == s.projects[projectId].currentVersionIndex && w.code == s.projects[projectId].currentCode
    requires s1.projects == s.projects[projectId := s.projects[projectId].(currentCode := code, currentVersionIndex := versionIndex)]
    ensures var o := RollbackOutcome(s1, Some(u), projectId, w.id, NoFault);
      o.response == Done && o.state.projects == s.projects
  {
    RollbackToOwnVersion(s1, u, projectId, w);
    var p := s.projects[projectId];
    assert s1.projects[projectId].(currentCode := w.code, currentVersionIndex := w.id) == p;
    assert s1.projects[projectId := p] == s.projects;
  }

  /** Rolling back to the version a project pointed at before a successful revision brings
      back the code and the pointer it had, and charges nothing. */
  lemma RollbackUndoesRevision(s: StoreState, u: UserId, projectId: Id, message: Option<string>,
                               enhanced: Gen, generated: Gen, newVersionId: Id)
    requires Consistent(s) && FreshVersionId(s, newVersionId)
    requires projectId in s.projects
    requires var p := s.projects[projectId];
      p.currentVersionIndex != ""
      && (forall v :: v in s.versions && v.id == p.currentVersionIndex ==> v.code == p.currentCode)
    requires RevisionOutcome(s, Some(u), projectId, message, enhanced, generated, NoFault, newVersionId).response == Done
    ensures var s1 := RevisionOutcome(s, Some(u), projectId, message, enhanced, generated, NoFault, newVersionId).state;
      var o := RollbackOutcome(s1, Some(u), projectId, s.projects[projectId].currentVersionIndex, NoFault);
      && o.response == Done
      && o.state.projects == s.projects
      && o.state.users == s1.users
  {
    var p := s.projects[projectId];
    var s1 := RevisionOutcome(s, Some(u), projectId, message, enhanced, generated, NoFault, newVersionId).state;
    VersionsAndProjects(s, Some(u), projectId, message, enhanced, generated, NoFault, newVersionId);
    RevisionKeepsConsistent(s, Some(u), projectId, message, enhanced, generated, NoFault, newVersionId);
    var w :| w in s.versions && w.projectId == projectId && w.id == p.currentVersionIndex;
    assert w in s1.versions;
    RollbackUndoesRepoint(s, s1, u, projectId, w, ExtractCode(generated.text), newVersionId);
    RollbackRestoresVersion(s1, Some(u), projectId, w.id, NoFault);
  }

  /** Code saved into a published project is what the public view then returns. */
  lemma SaveThenPublicView(s: StoreState, u: UserId, projectId: Id, code: Option<string>)
    requires projectId in s.projects && s.projects[projectId].isPublished
    requires SaveOutcome(s, Some(u), projectId, code, NoFault).response == Done
    ensures GetProjectById(SaveOutcome(s, Some(u), projectId, code, NoFault).state, projectId, NoFault) == Code(code.value)
  {
  }
}
