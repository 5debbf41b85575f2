/** Two end-to-end runs of `makeRevision` in which the generator answers both of its calls
    (the enhancement and the generation) with the same stubbed reply. */
module Scenarios {
  import opened Optional
  import opened JsText
  import opened Fences
  import opened Generator
  import opened Records
  import opened Handlers
  import opened RevisionProperties

  /** The stubbed reply's fenced page comes out as the bare page. */
  lemma StubbedPageExtracted(text: string)
    requires text == "```html\n<html>new</html>\n```"
    ensures ExtractCode(text) == "<html>new</html>"
  {
    var tag, line := "html", "<html>new</html>";
    assert text == Fenced(tag, line + "\n");
    StripFencesOfFencedLine(tag, line);
    ExtractCodeIsStripFences(text);
  }

  /** A user with ten credits asks for a change to their page and the generator returns the
      new page in an `html` fence: the new version holds the bare page, the project shows it,
      five credits are left, and one user and two assistant entries are logged. */
  lemma RevisionScenario(s: StoreState, u: UserId, projectId: Id, message: Option<string>, reply: Gen,
                         newVersionId: Id)
    requires u in s.users && s.users[u].credits == 10
    requires projectId in s.projects && s.projects[projectId].userId == u
    requires s.projects[projectId].currentCode == "<html>old</html>"
    requires message == Some("make header blue")
    requires reply == Text("```html\n<html>new</html>\n```")
    ensures var o := RevisionOutcome(s, Some(u), projectId, message, reply, reply, NoFault, newVersionId);
      && o.response == Done
      && o.state.versions == s.versions + [Version(newVersionId, projectId, "<html>new</html>", ChangeDescription)]
      && o.state.projects == s.projects[projectId := s.projects[projectId].(
           currentCode := "<html>new</html>", currentVersionIndex := newVersionId)]
      && o.state.users == s.users[u := User(5)]
      && o.state.conversations == s.conversations + [
           Entry(projectId, UserRole, "make header blue"),
           Entry(projectId, AssistantRole, EnhancementNote(reply)),
           Entry(projectId, AssistantRole, SuccessNote)]
  {
    assert !IsWhitespace(message.value[0]);
    StubbedPageExtracted(reply.text);
    SuccessChargesOnce(s, Some(u), projectId, message, reply, reply, NoFault, newVersionId);
  }

  /** The same request when the generator fails: its first call throws, so the catch block
      gives the five credits back, no version is created and the project keeps its code. The
      only entry logged is the user's request; no failure entry is written on this path. */
  lemma RevisionFailureScenario(s: StoreState, u: UserId, projectId: Id, message: Option<string>, reply: Gen,
                                newVersionId: Id)
    requires u in s.users && s.users[u].credits == 10
    requires projectId in s.projects && s.projects[projectId].userId == u
    requires s.projects[projectId].currentCode == "<html>old</html>"
    requires message == Some("make header blue")
    requires reply == Throws
    ensures var o := RevisionOutcome(s, Some(u), projectId, message, reply, reply, NoFault, newVersionId);
      && o.response == ServerError
      && o.state.users == s.users
      && o.state.versions == s.versions
      && o.state.projects == s.projects
      && o.state.conversations == s.conversations + [Entry(projectId, UserRole, "make header blue")]
  {
    assert !IsWhitespace(message.value[0]);
    EnhancementThrowLogsNoFailure(s, Some(u), projectId, message, reply, NoFault, newVersionId);
  }
}
