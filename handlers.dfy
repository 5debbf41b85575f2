/** The project controller's handlers (server/dist/controllers/projectController.js) as
    functions from the store before a request to its outcome. Every awaited store call can
    be made to throw through a `Fault`; the two generator calls of a revision are inputs. */
module Handlers {
  import opened Optional
  import opened JsText
  import opened Fences
  import opened Generator
  import opened Records

  const ChangeDescription: string := "changes made"
  const FailureNote: string := "Unable to generate the code, please try again"
  const SuccessNote: string := "I have made the changes to your website! You can now preview it"
  const RollbackNote: string := "I've rolled back your website to selected version. You can now preview it"

  /** The assistant's entry recording the enhanced prompt. */
  function EnhancementNote(enhanced: Gen): string
    requires !enhanced.Throws?
  {
    "I have enhanced your prompt to : \"" + Interpolated(enhanced) + "\""
  }

  predicate KnownUser(s: StoreState, userId: Option<UserId>) {
    userId.Some? && userId.value in s.users
  }

  /** The message is missing, empty or only whitespace; `IsBlankIsEmptyTrim` shows this is
      exactly the case where `message.trim()` is missing or empty. */
  predicate IsBlank(message: Option<string>) {
    message.None? || AllWhitespace(message.value)
  }

  /** The guard written as the handler tests it: no message, or one that trims to "". */
  lemma IsBlankIsEmptyTrim(message: Option<string>)
    ensures IsBlank(message) <==> message.None? || Trim(message.value) == ""
  {
    if message.Some? {
      TrimIsTrimmed(message.value);
    }
  }

  /** The request passes every guard of a revision: known user, enough credits, a message
      that is not blank, and a project the user owns. */
  predicate Admitted(s: StoreState, userId: Option<UserId>, projectId: Id, message: Option<string>) {
    && KnownUser(s, userId)
    && s.users[userId.value].credits >= RevisionCost
    && !IsBlank(message)
    && Owns(s, userId.value, projectId)
  }

  /** The catch block of a revision: five credits are added back to the caller, whatever
      had happened before the throw. When there is no such user record that update throws
      in turn and no reply is sent. */
  function CatchRefund(s: StoreState, userId: Option<UserId>): Outcome {
    if KnownUser(s, userId) then Outcome(AddCredits(s, userId.value, RevisionCost), ServerError)
    else Outcome(s, NoResponse)
  }

  /** `makeRevision`: the guards in their order, then the try block from the request entry
      on. */
  function RevisionOutcome(s: StoreState, userId: Option<UserId>, projectId: Id, message: Option<string>,
                           enhanced: Gen, generated: Gen, fault: Fault, newVersionId: Id): Outcome
  {
    if fault == FailAt(FindUser) then CatchRefund(s, userId)
    else if !KnownUser(s, userId) then Outcome(s, Unauthorized)
    else if s.users[userId.value].credits < RevisionCost then Outcome(s, InsufficientCredits)
    else if IsBlank(message) then Outcome(s, InvalidRequest)
    else if fault == FailAt(FindProject) then CatchRefund(s, userId)
    else if !Owns(s, userId.value, projectId) then Outcome(s, ProjectNotFound)
    else if fault == FailAt(LogRequest) then CatchRefund(s, userId)
    else Charge(Log(s, projectId, UserRole, message.value), userId, projectId, enhanced, generated, fault, newVersionId)
  }

  /** Once the request is logged: the debit and the enhancement entry, then the generation. */
  function Charge(s1: StoreState, userId: Option<UserId>, projectId: Id, enhanced: Gen, generated: Gen,
                  fault: Fault, newVersionId: Id): Outcome
    requires KnownUser(s1, userId) && projectId in s1.projects
  {
    if fault == FailAt(Debit) then CatchRefund(s1, userId)
    else
      var s2 := AddCredits(s1, userId.value, -RevisionCost);
      if enhanced.Throws? || fault == FailAt(LogEnhancement) then CatchRefund(s2, userId)
      else Generate(Log(s2, projectId, AssistantRole, EnhancementNote(enhanced)), userId, projectId, generated, fault, newVersionId)
  }

  /** Once the enhancement is logged: the failure entry and refund, or the new version, the
      success entry and the repointed project. */
  function Generate(s3: StoreState, userId: Option<UserId>, projectId: Id, generated: Gen, fault: Fault,
                    newVersionId: Id): Outcome
    requires KnownUser(s3, userId) && projectId in s3.projects
  {
    if generated.Throws? then CatchRefund(s3, userId)
    else if IsFalsy(generated) then
      if fault == FailAt(LogFailure) then CatchRefund(s3, userId)
      else
        var s4 := Log(s3, projectId, AssistantRole, FailureNote);
        if fault == FailAt(Refund) then CatchRefund(s4, userId)
        else Outcome(AddCredits(s4, userId.value, RevisionCost), GenerationFailed)
    else
      var code := ExtractCode(generated.text);
      if fault == FailAt(CreateVersion) then CatchRefund(s3, userId)
      else
        var s4 := AddVersion(s3, Version(newVersionId, projectId, code, ChangeDescription));
        if fault == FailAt(LogSuccess) then CatchRefund(s4, userId)
        else
          var s5 := Log(s4, projectId, AssistantRole, SuccessNote);
          if fault == FailAt(UpdateProject) then CatchRefund(s5, userId)
          else Outcome(Repoint(s5, projectId, code, newVersionId), Done)
  }

  /** `rollbackToVersion`: the caller's project, the version among its versions, then the
      repointed project and an assistant entry. No credits move. */
  function RollbackOutcome(s: StoreState, userId: Option<UserId>, projectId: Id, versionId: Id, fault: Fault): Outcome
  {
    if userId.None? then Outcome(s, Unauthorized)
    else if fault == FailAt(FindProject) then Outcome(s, ServerError)
    else if !Owns(s, userId.value, projectId) then Outcome(s, ProjectNotFound)
    else
      var found := FindVersion(VersionsOf(s.versions, projectId), versionId);
      if found.None? then Outcome(s, VersionNotFound)
      else if fault == FailAt(UpdateProject) then Outcome(s, ServerError)
      else
        var s1 := Repoint(s, projectId, found.value.code, found.value.id);
        if fault == FailAt(LogRollback) then Outcome(s1, ServerError)
        else Outcome(Log(s1, projectId, AssistantRole, RollbackNote), Done)
  }

  /** `saveProjectCode`: a non-empty code (not trimmed) overwrites the caller's project's
      code and clears its version pointer. */
  function SaveOutcome(s: StoreState, userId: Option<UserId>, projectId: Id, code: Option<string>, fault: Fault): Outcome
  {
    if userId.None? then Outcome(s, Unauthorized)
    else if code.None? || code.value == "" then Outcome(s, InvalidRequest)
    else if fault == FailAt(FindProject) then Outcome(s, ServerError)
    else if !Owns(s, userId.value, projectId) then Outcome(s, ProjectNotFound)
    else if fault == FailAt(UpdateProject) then Outcome(s, ServerError)
    else Outcome(Repoint(s, projectId, code.value, ""), Done)
  }

  /** `deleteProject`: deletes the project when the caller owns it. A delete that matches no
      record throws, so a missing or foreign project is answered from the catch block. */
  function DeleteOutcome(s: StoreState, userId: Option<UserId>, projectId: Id, fault: Fault): Outcome
  {
    if fault == FailAt(RemoveProject) then Outcome(s, ServerError)
    else if userId.None? || !Owns(s, userId.value, projectId) then Outcome(s, ServerError)
    else Outcome(s.(projects := s.projects - {projectId}), Done)
  }

  /** The visibility test of the public view: published, with non-empty code. */
  predicate PubliclyVisible(p: Project) {
    p.isPublished && p.currentCode != ""
  }

  /** `getProjectById`: the public view. No ownership check. */
  function GetProjectById(s: StoreState, projectId: Id, fault: Fault): Response
  {
    if fault == FailAt(FindProject) then ServerError
    else if projectId !in s.projects || !PubliclyVisible(s.projects[projectId]) then ProjectNotFound
    else Code(s.projects[projectId].currentCode)
  }

  /** `getProjectPreview`: the caller's project with its versions. */
  function GetProjectPreview(s: StoreState, userId: Option<UserId>, projectId: Id, fault: Fault): Response
  {
    if userId.None? then Unauthorized
    else if fault == FailAt(FindProject) then ServerError
    else if !Owns(s, userId.value, projectId) then ProjectNotFound
    else ProjectView(s.projects[projectId], VersionsOf(s.versions, projectId))
  }
}
