/** The JQL query `fetch_data` sends to Jira: a `project = …` clause, then at
    most one sprint clause, joined by ` AND `, unless a custom query is given.
    Python truthiness decides which arguments take part: an empty string and
    `None` are both absent, and so is a sprint id of 0. */
module JiraQuery {
  import opened Text

  /** `sprint_state_mapping.get(state)`. */
  function SprintStateClause(state: string): (r: Option<string>)
    ensures r.Some? <==> state == "active" || state == "closed" || state == "future"
    ensures state == "active" ==> r == Some("sprint in openSprints()")
    ensures state == "closed" ==> r == Some("sprint in closedSprints()")
    ensures state == "future" ==> r == Some("sprint in futureSprints()")
  {
    if state == "active" then Some("sprint in openSprints()")
    else if state == "closed" then Some("sprint in closedSprints()")
    else if state == "future" then Some("sprint in futureSprints()")
    else None
  }

  /** `if sprint_id:` for an integer id or `None`. */
  predicate HasSprintId(sprintId: Option<nat>) {
    sprintId.Some? && sprintId.value != 0
  }

  /** The sprint clause: the id when there is one, otherwise the state's clause. */
  function SprintClause(sprintId: Option<nat>, sprintState: string): (r: Option<string>)
    ensures HasSprintId(sprintId) ==> r == Some("sprint = " + NatToString(sprintId.value))
    ensures !HasSprintId(sprintId) ==> r == SprintStateClause(sprintState)
  {
    if HasSprintId(sprintId) then Some("sprint = " + NatToString(sprintId.value))
    else SprintStateClause(sprintState)
  }

  /** `jql_components`, in the order they are appended. */
  function JqlComponents(projectKey: string, sprintId: Option<nat>, sprintState: string): (r: seq<string>)
    ensures |r| == (if projectKey != "" then 1 else 0) + (if SprintClause(sprintId, sprintState).Some? then 1 else 0)
    ensures projectKey != "" ==> r[0] == "project = " + projectKey
    ensures SprintClause(sprintId, sprintState).Some? ==> r[|r| - 1] == SprintClause(sprintId, sprintState).value
  {
    (if projectKey != "" then ["project = " + projectKey] else [])
    + (match SprintClause(sprintId, sprintState)
       case Some(c) => [c]
       case None => [])
  }

  /** `jql_query = jql if jql else " AND ".join(jql_components)`. */
  function JqlQuery(projectKey: string, jql: string, sprintId: Option<nat>, sprintState: string): (q: string)
    ensures jql != "" ==> q == jql
    ensures jql == "" && projectKey == "" && !HasSprintId(sprintId) && SprintStateClause(sprintState).None? ==> q == ""
  {
    if jql != "" then jql else Join(JqlComponents(projectKey, sprintId, sprintState), " AND ")
  }

  /** With a sprint id the state is not looked at: any two states give the same query. */
  lemma SprintIdWins(projectKey: string, sprintId: Option<nat>, s1: string, s2: string)
    requires HasSprintId(sprintId)
    ensures JqlQuery(projectKey, "", sprintId, s1) == JqlQuery(projectKey, "", sprintId, s2)
  {
  }

  /** A state outside the mapping, `None` (the empty string here) included,
      adds no clause: only the project is queried. */
  lemma UnknownStateAddsNothing(projectKey: string, sprintState: string)
    requires SprintStateClause(sprintState).None?
    ensures JqlComponents(projectKey, None, sprintState) == (if projectKey != "" then ["project = " + projectKey] else [])
  {
  }

  /** Project and sprint together: the project clause first, then ` AND `, then the sprint. */
  lemma ProjectAndSprint(projectKey: string, sprintId: Option<nat>, sprintState: string)
    requires projectKey != "" && SprintClause(sprintId, sprintState).Some?
    ensures JqlQuery(projectKey, "", sprintId, sprintState)
            == "project = " + projectKey + " AND " + SprintClause(sprintId, sprintState).value
  {
    var r := JqlComponents(projectKey, sprintId, sprintState);
    var c := SprintClause(sprintId, sprintState).value;
    assert r == ["project = " + projectKey, c];
    assert r[1..] == [c];
    assert Join(r[1..], " AND ") == c;
  }

  /** An active-sprint report of project `k`, as the main menu asks for it. */
  lemma ActiveSprintQuery(k: string)
    requires k != ""
    ensures JqlQuery(k, "", None, "active") == "project = " + k + " AND sprint in openSprints()"
  {
    ProjectAndSprint(k, None, "active");
  }
}
