/** What `makeRevision` guarantees, including the refunds its catch block gives where no
    credits were taken or a version already exists, stated over `Handlers.RevisionOutcome`. The lemmas about the two inner phases (`Charge`, `Generate`)
    carry the case analysis; the lemmas about the whole handler combine them. */
module RevisionProperties {
  import opened Optional
  import opened Fences
  import opened Generator
  import opened Records
  import opened Handlers

  /** Store calls whose failure is caught before the five credits were taken. */
  predicate BeforeDebit(fault: Fault) {
    fault == FailAt(FindUser) || fault == FailAt(FindProject) || fault == FailAt(LogRequest) || fault == FailAt(Debit)
  }

  /** The revision creates its version: every guard passes, no store call up to the version's
      creation throws, the enhancement returns and the generation returns non-empty text. */
  predicate CreatesVersion(s: StoreState, userId: Option<UserId>, projectId: Id, message: Option<string>,
                           enhanced: Gen, generated: Gen, fault: Fault)
  {
    && Admitted(s, userId, projectId, message)
    && !BeforeDebit(fault) && fault != FailAt(LogEnhancement) && fault != FailAt(CreateVersion)
    && !enhanced.Throws? && generated.Text? && generated.text != ""
  }

  /** The version a revision creates. */
  function NewVersion(projectId: Id, generated: Gen, newVersionId: Id): Version
    requires generated.Text?
  {
    Version(newVersionId, projectId, ExtractCode(generated.text), ChangeDescription)
  }

  /** The caller's project pointed at the new version. */
  function Repointed(projects: map<Id, Project>, projectId: Id, generated: Gen, newVersionId: Id): map<Id, Project>
    requires projectId in projects && generated.Text?
  {
    projects[projectId := projects[projectId].(currentCode := ExtractCode(generated.text),
                                               currentVersionIndex := newVersionId)]
  }

  function Credits(s: StoreState, u: UserId): int
    requires u in s.users
  {
    s.users[u].credits
  }

  /** `users` with the balance of `u` moved by `delta`. */
  function Bumped(users: map<UserId, User>, u: UserId, delta: int): map<UserId, User>
    requires u in users
  {
    users[u := User(users[u].credits + delta)]
  }

  /** The net change a revision makes to its caller's balance: minus five on success, plus
      five when the catch block ran before the debit, nothing otherwise. */
  function NetCharge(response: Response, fault: Fault): int {
    if response == Done then -RevisionCost
    else if response == ServerError && BeforeDebit(fault) then RevisionCost
    else 0
  }

  lemma SameCredits(users: map<UserId, User>, u: UserId)
    requires u in users
    ensures Bumped(users, u, 0) == users
  {
    assert users[u := User(users[u].credits)] == users;
  }

  // ----- The generation phase -----

  /** Every way out of the generation phase gives the five credits back except success. */
  lemma GenerateBalance(s3: StoreState, userId: Option<UserId>, projectId: Id, generated: Gen, fault: Fault,
                        newVersionId: Id)
    requires KnownUser(s3, userId) && projectId in s3.projects
    ensures var o := Generate(s3, userId, projectId, generated, fault, newVersionId);
      && (o.response == Done || o.response == ServerError || o.response == GenerationFailed)
      && o.state.users == Bumped(s3.users, userId.value, if o.response == Done then 0 else RevisionCost)
  {
    SameCredits(s3.users, userId.value);
  }

  /** The generation phase appends the new version once it reaches its creation, and points
      the project at it only on success. */
  lemma GenerateVersions(s3: StoreState, userId: Option<UserId>, projectId: Id, generated: Gen, fault: Fault,
                         newVersionId: Id)
    requires KnownUser(s3, userId) && projectId in s3.projects
    ensures var o := Generate(s3, userId, projectId, generated, fault, newVersionId);
      var made := generated.Text? && generated.text != "" && fault != FailAt(CreateVersion);
      && (o.response == Done <==> made && fault != FailAt(LogSuccess) && fault != FailAt(UpdateProject))
      && o.state.versions == s3.versions + (if made then [NewVersion(projectId, generated, newVersionId)] else [])
      && (o.response == Done ==> o.state.projects == Repointed(s3.projects, projectId, generated, newVersionId))
      && (o.response != Done ==> o.state.projects == s3.projects)
  {
  }

  // ----- The charging phase -----

  lemma ChargeBalance(s1: StoreState, userId: Option<UserId>, projectId: Id, enhanced: Gen, generated: Gen,
                      fault: Fault, newVersionId: Id)
    requires KnownUser(s1, userId) && projectId in s1.projects
    ensures var o := Charge(s1, userId, projectId, enhanced, generated, fault, newVersionId);
      && (o.response == Done || o.response == ServerError || o.response == GenerationFailed)
      && o.state.users == Bumped(s1.users, userId.value,
           if o.response == Done then -RevisionCost else if fault == FailAt(Debit) then RevisionCost else 0)
  {
    var u := userId.value;
    var c := s1.users[u].credits;
    SameCredits(s1.users, u);
    if fault != FailAt(Debit) {
      var s2 := AddCredits(s1, u, -RevisionCost);
      if !(enhanced.Throws? || fault == FailAt(LogEnhancement)) {
        GenerateBalance(Log(s2, projectId, AssistantRole, EnhancementNote(enhanced)), userId, projectId,
                        generated, fault, newVersionId);
      }
      assert s2.users[u := User(c - RevisionCost + RevisionCost)] == s1.users;
      assert s2.users[u := User(c - RevisionCost + 0)] == Bumped(s1.users, u, -RevisionCost);
    }
  }

  lemma ChargeVersions(s1: StoreState, userId: Option<UserId>, projectId: Id, enhanced: Gen, generated: Gen,
                       fault: Fault, newVersionId: Id)
    requires KnownUser(s1, userId) && projectId in s1.projects
    ensures var o := Charge(s1, userId, projectId, enhanced, generated, fault, newVersionId);
      var made := fault != FailAt(Debit) && fault != FailAt(LogEnhancement) && !enhanced.Throws?
                  && generated.Text? && generated.text != "" && fault != FailAt(CreateVersion);
      && (o.response == Done <==> made && fault != FailAt(LogSuccess) && fault != FailAt(UpdateProject))
      && o.state.versions == s1.versions + (if made then [NewVersion(projectId, generated, newVersionId)] else [])
      && (o.response == Done ==> o.state.projects == Repointed(s1.projects, projectId, generated, newVersionId))
      && (o.response != Done ==> o.state.projects == s1.projects)
  {
    if fault != FailAt(Debit) && !enhanced.Throws? && fault != FailAt(LogEnhancement) {
      var s2 := AddCredits(s1, userId.value, -RevisionCost);
      GenerateVersions(Log(s2, projectId, AssistantRole, EnhancementNote(enhanced)), userId, projectId,
                       generated, fault, newVersionId);
    }
  }

  // ----- The whole handler -----

  /** The guards reject in a fixed order (unknown user, too few credits, blank message,
      project not the caller's), each exactly under its condition, and a rejection leaves
      the store as it was. */
  lemma RejectionsInOrder(s: StoreState, userId: Option<UserId>, projectId: Id, message: Option<string>,
                          enhanced: Gen, generated: Gen, fault: Fault, newVersionId: Id)
    ensures var o := RevisionOutcome(s, userId, projectId, message, enhanced, generated, fault, newVersionId);
      && (o.response == Unauthorized <==> fault != FailAt(FindUser) && !KnownUser(s, userId))
      && (o.response == InsufficientCredits <==>
            fault != FailAt(FindUser) && KnownUser(s, userId) && Credits(s, userId.value) < RevisionCost)
      && (o.response == InvalidRequest <==>
            fault != FailAt(FindUser) && KnownUser(s, userId) && Credits(s, userId.value) >= RevisionCost
            && IsBlank(message))
      && (o.response == ProjectNotFound <==>
            fault != FailAt(FindUser) && fault != FailAt(FindProject) && KnownUser(s, userId)
            && Credits(s, userId.value) >= RevisionCost && !IsBlank(message)
            && !Owns(s, userId.value, projectId))
      && (o.response in {Unauthorized, InsufficientCredits, InvalidRequest, ProjectNotFound} ==> o.state == s)
  {
    if Admitted(s, userId, projectId, message) && !BeforeDebit(fault) {
      ChargeBalance(Log(s, projectId, UserRole, message.value), userId, projectId, enhanced, generated,
                    fault, newVersionId);
    }
  }

  /** The caller's balance after a revision: five less on success, five more when the catch
      block ran before the debit (a failed lookup, request entry or debit: the catch block
      refunds whether or not anything was taken), and unchanged otherwise; the debit and
      refund of a failed generation, and of a throw after the debit, cancel out. No other
      balance changes. */
  lemma CallerBalance(s: StoreState, userId: Option<UserId>, projectId: Id, message: Option<string>,
                      enhanced: Gen, generated: Gen, fault: Fault, newVersionId: Id)
    ensures var o := RevisionOutcome(s, userId, projectId, message, enhanced, generated, fault, newVersionId);
      && (!KnownUser(s, userId) ==> o.state.users == s.users)
      && (KnownUser(s, userId) ==> o.state.users == Bumped(s.users, userId.value, NetCharge(o.response, fault)))
  {
    if KnownUser(s, userId) {
      SameCredits(s.users, userId.value);
      if Admitted(s, userId, projectId, message) && fault != FailAt(FindUser) && fault != FailAt(FindProject)
         && fault != FailAt(LogRequest) {
        ChargeBalance(Log(s, projectId, UserRole, message.value), userId, projectId, enhanced, generated,
                      fault, newVersionId);
      }
    }
  }

  /** Versions are only appended, at most one per revision: the new version exactly when the
      revision gets as far as creating it, even if a later store call throws. The project is
      pointed at it exactly on success, which needs every store call to go through. */
  lemma VersionsAndProjects(s: StoreState, userId: Option<UserId>, projectId: Id, message: Option<string>,
                            enhanced: Gen, generated: Gen, fault: Fault, newVersionId: Id)
    ensures var o := RevisionOutcome(s, userId, projectId, message, enhanced, generated, fault, newVersionId);
      var made := CreatesVersion(s, userId, projectId, message, enhanced, generated, fault);
      && (o.response == Done <==> made && fault != FailAt(LogSuccess) && fault != FailAt(UpdateProject))
      && o.state.versions == s.versions + (if made then [NewVersion(projectId, generated, newVersionId)] else [])
      && (o.response == Done ==>
            projectId in s.projects && generated.Text?
            && o.state.projects == Repointed(s.projects, projectId, generated, newVersionId))
      && (o.response != Done ==> o.state.projects == s.projects)
  {
    if Admitted(s, userId, projectId, message) && !BeforeDebit(fault) {
      ChargeVersions(Log(s, projectId, UserRole, message.value), userId, projectId, enhanced, generated,
                     fault, newVersionId);
    }
  }

  /** With non-negative balances before, balances stay non-negative: the only decrement
      comes after the check that at least five credits are there. */
  lemma BalanceNeverNegative(s: StoreState, userId: Option<UserId>, projectId: Id, message: Option<string>,
                             enhanced: Gen, generated: Gen, fault: Fault, newVersionId: Id)
    requires CreditsNonNegative(s.users)
    ensures CreditsNonNegative(
      RevisionOutcome(s, userId, projectId, message, enhanced, generated, fault, newVersionId).state.users)
  {
    CallerBalance(s, userId, projectId, message, enhanced, generated, fault, newVersionId);
    VersionsAndProjects(s, userId, projectId, message, enhanced, generated, fault, newVersionId);
  }

  /** A failed user lookup of a known user, before any guard and before any debit, still
      adds five credits. */
  lemma FailedLookupMintsCredits(s: StoreState, userId: Option<UserId>, projectId: Id, message: Option<string>,
                                 enhanced: Gen, generated: Gen, newVersionId: Id)
    requires KnownUser(s, userId)
    ensures var o := RevisionOutcome(s, userId, projectId, message, enhanced, generated, FailAt(FindUser), newVersionId);
      && o.response == ServerError
      && Credits(o.state, userId.value) == Credits(s, userId.value) + RevisionCost
  {
  }

  /** An empty or missing generation result: the balance ends where it started, no version
      is added, no project changes, and exactly the request, the enhancement and the failure
      entries are logged. */
  lemma GenerationFailureRestoresStore(s: StoreState, userId: Option<UserId>, projectId: Id, message: Option<string>,
                                       enhanced: Gen, generated: Gen, fault: Fault, newVersionId: Id)
    ensures var o := RevisionOutcome(s, userId, projectId, message, enhanced, generated, fault, newVersionId);
      && (o.response == GenerationFailed <==>
            Admitted(s, userId, projectId, message) && !BeforeDebit(fault)
            && fault != FailAt(LogEnhancement) && fault != FailAt(LogFailure) && fault != FailAt(Refund)
            && !enhanced.Throws? && !generated.Throws? && IsFalsy(generated))
      && (o.response == GenerationFailed ==>
            && o.state.users == s.users
            && o.state.versions == s.versions
            && o.state.projects == s.projects
            && o.state.conversations == s.conversations + [
                 Entry(projectId, UserRole, message.value),
                 Entry(projectId, AssistantRole, EnhancementNote(enhanced)),
                 Entry(projectId, AssistantRole, FailureNote)])
  {
    CallerBalance(s, userId, projectId, message, enhanced, generated, fault, newVersionId);
    VersionsAndProjects(s, userId, projectId, message, enhanced, generated, fault, newVersionId);
    if KnownUser(s, userId) {
      SameCredits(s.users, userId.value);
    }
  }

  /** A non-empty generation result with no store failure: the balance drops by exactly
      five, exactly one version is appended, holding the extracted code and the fixed
      description, the project is pointed at it, and the request, enhancement and success
      entries are logged. An empty or missing enhancement is not checked: it still leads
      here. */
  lemma SuccessChargesOnce(s: StoreState, userId: Option<UserId>, projectId: Id, message: Option<string>,
                           enhanced: Gen, generated: Gen, fault: Fault, newVersionId: Id)
    ensures var o := RevisionOutcome(s, userId, projectId, message, enhanced, generated, fault, newVersionId);
      && (o.response == Done <==>
            Admitted(s, userId, projectId, message) && !enhanced.Throws? && generated.Text? && generated.text != ""
            && !BeforeDebit(fault) && fault != FailAt(LogEnhancement) && fault != FailAt(CreateVersion)
            && fault != FailAt(LogSuccess) && fault != FailAt(UpdateProject))
      && (o.response == Done ==>
            && o.state.users == Bumped(s.users, userId.value, -RevisionCost)
            && o.state.versions == s.versions + [NewVersion(projectId, generated, newVersionId)]
            && o.state.projects == Repointed(s.projects, projectId, generated, newVersionId)
            && o.state.conversations == s.conversations + [
                 Entry(projectId, UserRole, message.value),
                 Entry(projectId, AssistantRole, EnhancementNote(enhanced)),
                 Entry(projectId, AssistantRole, SuccessNote)])
  {
    CallerBalance(s, userId, projectId, message, enhanced, generated, fault, newVersionId);
    VersionsAndProjects(s, userId, projectId, message, enhanced, generated, fault, newVersionId);
  }

  /** A throw after the version is created is refunded too: the version stays, the balance
      is back where it started, and the project still shows its old code. */
  lemma RefundDespiteNewVersion(s: StoreState, userId: Option<UserId>, projectId: Id, message: Option<string>,
                                enhanced: Gen, generated: Gen, fault: Fault, newVersionId: Id)
    requires Admitted(s, userId, projectId, message)
    requires !enhanced.Throws? && generated.Text? && generated.text != ""
    requires fault == FailAt(LogSuccess) || fault == FailAt(UpdateProject)
    ensures var o := RevisionOutcome(s, userId, projectId, message, enhanced, generated, fault, newVersionId);
      && o.response == ServerError
      && o.state.versions == s.versions + [NewVersion(projectId, generated, newVersionId)]
      && o.state.users == s.users
      && o.state.projects == s.projects
  {
    CallerBalance(s, userId, projectId, message, enhanced, generated, fault, newVersionId);
    VersionsAndProjects(s, userId, projectId, message, enhanced, generated, fault, newVersionId);
    SameCredits(s.users, userId.value);
  }

  /** A thrown enhancement goes straight to the catch block: refunded, but only the request
      entry is logged, with no failure entry. */
  lemma EnhancementThrowLogsNoFailure(s: StoreState, userId: Option<UserId>, projectId: Id, message: Option<string>,
                                      generated: Gen, fault: Fault, newVersionId: Id)
    requires Admitted(s, userId, projectId, message)
    requires !BeforeDebit(fault)
    ensures var o := RevisionOutcome(s, userId, projectId, message, Throws, generated, fault, newVersionId);
      && o.response == ServerError
      && o.state.users == s.users
      && o.state.versions == s.versions
      && o.state.projects == s.projects
      && o.state.conversations == s.conversations + [Entry(projectId, UserRole, message.value)]
  {
    SameCredits(s.users, userId.value);
    var u := userId.value;
    var c := s.users[u].credits;
    assert s.users[u := User(c - RevisionCost)][u := User(c - RevisionCost + RevisionCost)] == s.users;
  }

  /** A revision keeps the store invariant when the new version's id is fresh. */
  lemma RevisionKeepsConsistent(s: StoreState, userId: Option<UserId>, projectId: Id, message: Option<string>,
                                enhanced: Gen, generated: Gen, fault: Fault, newVersionId: Id)
    requires Consistent(s) && FreshVersionId(s, newVersionId)
    ensures Consistent(RevisionOutcome(s, userId, projectId, message, enhanced, generated, fault, newVersionId).state)
  {
    var o := RevisionOutcome(s, userId, projectId, message, enhanced, generated, fault, newVersionId);
    BalanceNeverNegative(s, userId, projectId, message, enhanced, generated, fault, newVersionId);
    VersionsAndProjects(s, userId, projectId, message, enhanced, generated, fault, newVersionId);
    var t := s.(users := o.state.users);
    SetCreditsKeepsConsistent(s, o.state.users);
    if CreatesVersion(s, userId, projectId, message, enhanced, generated, fault) {
      var v := NewVersion(projectId, generated, newVersionId);
      AddVersionKeepsConsistent(t, v);
      var t2 := AddVersion(t, v);
      if o.response == Done {
        assert HasVersion(t2.versions, projectId, newVersionId) by {
          assert v in t2.versions;
        }
        RepointKeepsConsistent(t2, projectId, ExtractCode(generated.text), newVersionId);
        assert o.state == Repoint(t2, projectId, ExtractCode(generated.text), newVersionId).(conversations := o.state.conversations);
      } else {
        assert o.state == t2.(conversations := o.state.conversations);
      }
    } else {
      assert o.state == t.(conversations := o.state.conversations);
    }
  }
}
