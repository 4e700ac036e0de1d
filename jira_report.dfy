/** `generate_report_data`: one pass over the issues that flattens each into
    a record of plain values, with `safe_get`'s defaults for what is missing,
    and counts them by status, assignee, type and label while grouping the
    issue keys by epic. Jira's issue objects become records whose absent
    attributes are `None`. */
module JiraReport {
  import opened Text

  /** A Jira resource read through its `name` (status, priority, issue type). */
  datatype Named = Named(name: Option<string>)

  /** A Jira user read through its `displayName`. */
  datatype Person = Person(displayName: Option<string>)

  /** The attributes of `issue.fields` the report reads; `epicLink` is
      `customfield_10014`. */
  datatype Fields = Fields(
    summary: Option<string>,
    status: Option<Named>,
    assignee: Option<Person>,
    reporter: Option<Person>,
    created: Option<string>,
    priority: Option<Named>,
    description: Option<string>,
    issuetype: Option<Named>,
    labels: seq<string>,
    epicLink: Option<string>)

  datatype Issue = Issue(key: string, fields: Option<Fields>)

  /** `issue_data`: the flattened issue; `epic` is present only when the
      issue has a non-empty epic link. */
  datatype IssueData = IssueData(
    key: string,
    summary: string,
    status: string,
    assignee: string,
    reporter: string,
    created: string,
    priority: string,
    description: string,
    issueType: string,
    labels: seq<string>,
    epic: Option<string>)

  const UnassignedName := "Sin asignar"
  const UnknownReporter := "Desconocido"
  const UndefinedPriority := "No definida"
  const NoDescription := "Sin descripción"
  const DefaultIssueType := "Tarea"
  const NoIssuesMessage := "No hay incidencias para generar informe"

  /** `safe_get(fields, attr, default)` for a one-part attribute: the
      default replaces a missing `fields` and a `None` value, not an empty one. */
  function SafeGet(fields: Option<Fields>, attr: Fields -> Option<string>, default: string): string {
    match fields
    case None => default
    case Some(f) => attr(f).GetOr(default)
  }

  /** `safe_get(fields, 'x.name', default)`: missing at either step gives the default. */
  function SafeGetName(fields: Option<Fields>, attr: Fields -> Option<Named>, default: string): string {
    match fields
    case None => default
    case Some(f) =>
      match attr(f)
      case None => default
      case Some(n) => n.name.GetOr(default)
  }

  /** `safe_get(fields, 'x.displayName', default)`. */
  function SafeGetPerson(fields: Option<Fields>, attr: Fields -> Option<Person>, default: string): string {
    match fields
    case None => default
    case Some(f) =>
      match attr(f)
      case None => default
      case Some(p) => p.displayName.GetOr(default)
  }

  /** The assignee's display name, when the issue has an assignee that has one. */
  function AssigneeOf(issue: Issue): Option<string> {
    if issue.fields.Some? && issue.fields.value.assignee.Some? then issue.fields.value.assignee.value.displayName
    else None
  }

  /** The issue type's name, when the issue has a type that has one. */
  function IssueTypeOf(issue: Issue): Option<string> {
    if issue.fields.Some? && issue.fields.value.issuetype.Some? then issue.fields.value.issuetype.value.name
    else None
  }

  /** The field mapping applied to one issue. */
  function Extract(issue: Issue): (d: IssueData)
    ensures d.key == issue.key
    ensures AssigneeOf(issue).None? ==> d.assignee == UnassignedName
    ensures AssigneeOf(issue).Some? ==> d.assignee == AssigneeOf(issue).value
    ensures IssueTypeOf(issue).None? ==> d.issueType == DefaultIssueType
    ensures IssueTypeOf(issue).Some? ==> d.issueType == IssueTypeOf(issue).value
    ensures issue.fields.None? ==> d.status == "" && d.labels == [] && d.epic == None
    ensures d.epic.Some? <==> issue.fields.Some? && issue.fields.value.epicLink.Some? && issue.fields.value.epicLink.value != ""
    ensures d.epic.Some? ==> d.epic == issue.fields.value.epicLink
  {
    var epicKey := SafeGet(issue.fields, (f: Fields) => f.epicLink, "");
    IssueData(
      issue.key,
      SafeGet(issue.fields, (f: Fields) => f.summary, ""),
      SafeGetName(issue.fields, (f: Fields) => f.status, ""),
      SafeGetPerson(issue.fields, (f: Fields) => f.assignee, UnassignedName),
      SafeGetPerson(issue.fields, (f: Fields) => f.reporter, UnknownReporter),
      SafeGet(issue.fields, (f: Fields) => f.created, ""),
      SafeGetName(issue.fields, (f: Fields) => f.priority, UndefinedPriority),
      SafeGet(issue.fields, (f: Fields) => f.description, NoDescription),
      SafeGetName(issue.fields, (f: Fields) => f.issuetype, DefaultIssueType),
      if issue.fields.Some? then issue.fields.value.labels else [],
      if epicKey != "" then Some(epicKey) else None)
  }

  /** The three attributes counted one per issue. */
  datatype Dimension = StatusDim | AssigneeDim | TypeDim

  function Attribute(d: IssueData, dim: Dimension): string {
    match dim
    case StatusDim => d.status
    case AssigneeDim => d.assignee
    case TypeDim => d.issueType
  }

  /** `m.get(k, 0)`. */
  function Get(m: map<string, nat>, k: string): nat {
    if k in m then m[k] else 0
  }

  /** `m[k] = m.get(k, 0) + 1`. */
  function Bump(m: map<string, nat>, k: string): map<string, nat> {
    m[k := Get(m, k) + 1]
  }

  /** The counter left after bumping once per element, in order. */
  function Tally(xs: seq<string>): map<string, nat>
    decreases |xs|
  {
    if xs == [] then map[] else Bump(Tally(xs[..|xs| - 1]), xs[|xs| - 1])
  }

  /** The issues' values in one dimension, in input order. */
  function Column(ds: seq<IssueData>, dim: Dimension): (r: seq<string>)
    ensures |r| == |ds|
    decreases |ds|
  {
    if ds == [] then [] else Column(ds[..|ds| - 1], dim) + [Attribute(ds[|ds| - 1], dim)]
  }

  /** Every label of every issue, in input order. */
  function AllLabels(ds: seq<IssueData>): seq<string>
    decreases |ds|
  {
    if ds == [] then [] else AllLabels(ds[..|ds| - 1]) + ds[|ds| - 1].labels
  }

  /** `epic_issues`: per epic, the keys appended so far. */
  function Hierarchy(ds: seq<IssueData>): map<string, seq<string>>
    decreases |ds|
  {
    if ds == [] then map[]
    else
      var h := Hierarchy(ds[..|ds| - 1]);
      var d := ds[|ds| - 1];
      match d.epic
      case None => h
      case Some(e) => h[e := (if e in h then h[e] else []) + [d.key]]
  }

  /** `{epic: len(issues) for epic, issues in epic_issues.items()}`. */
  function EpicSizes(h: map<string, seq<string>>): (r: map<string, nat>)
    ensures r.Keys == h.Keys
    ensures forall e :: e in r ==> r[e] == |h[e]|
  {
    map e | e in h :: |h[e]|
  }

  function ExtractAll(issues: seq<Issue>): (ds: seq<IssueData>)
    ensures |ds| == |issues|
    decreases |issues|
  {
    if issues == [] then [] else ExtractAll(issues[..|issues| - 1]) + [Extract(issues[|issues| - 1])]
  }

  datatype Report = Report(
    totalIssues: nat,
    issues: seq<IssueData>,
    byStatus: map<string, nat>,
    byAssignee: map<string, nat>,
    byType: map<string, nat>,
    byLabel: map<string, nat>,
    byEpic: map<string, nat>,
    hierarchy: map<string, seq<string>>)

  datatype ReportResult = NoIssues(error: string) | Generated(report: Report)

  /** What `generate_report_data(issues)` returns. */
  function ReportData(issues: seq<Issue>): ReportResult {
    if issues == [] then NoIssues(NoIssuesMessage)
    else
      var ds := ExtractAll(issues);
      var h := Hierarchy(ds);
      Generated(Report(|ds|, ds,
        Tally(Column(ds, StatusDim)), Tally(Column(ds, AssigneeDim)), Tally(Column(ds, TypeDim)),
        Tally(AllLabels(ds)), EpicSizes(h), h))
  }

  lemma TallySnoc(xs: seq<string>, x: string)
    ensures Tally(xs + [x]) == Bump(Tally(xs), x)
  {
    assert (xs + [x])[..|xs|] == xs;
  }

  lemma ColumnSnoc(ds: seq<IssueData>, d: IssueData, dim: Dimension)
    ensures Column(ds + [d], dim) == Column(ds, dim) + [Attribute(d, dim)]
  {
    assert (ds + [d])[..|ds|] == ds;
  }

  lemma AllLabelsSnoc(ds: seq<IssueData>, d: IssueData)
    ensures AllLabels(ds + [d]) == AllLabels(ds) + d.labels
  {
    assert (ds + [d])[..|ds|] == ds;
  }

  lemma HierarchySnoc(ds: seq<IssueData>, d: IssueData)
    ensures var h := Hierarchy(ds);
      Hierarchy(ds + [d]) == if d.epic.None? then h
                             else h[d.epic.value := (if d.epic.value in h then h[d.epic.value] else []) + [d.key]]
  {
    assert (ds + [d])[..|ds|] == ds;
  }

  lemma ExtractAllSnoc(issues: seq<Issue>, i: nat)
    requires i < |issues|
    ensures ExtractAll(issues[..i + 1]) == ExtractAll(issues[..i]) + [Extract(issues[i])]
  {
    assert issues[..i + 1][..i] == issues[..i];
  }

  /** `for label in labels: label_counts[label] = label_counts.get(label, 0) + 1`:
      counting on from the labels `seen` before. */
  method CountLabels(labelCounts: map<string, nat>, labels: seq<string>, ghost seen: seq<string>)
    returns (counts: map<string, nat>)
    requires labelCounts == Tally(seen)
    ensures counts == Tally(seen + labels)
  {
    counts := labelCounts;
    assert seen + labels[..0] == seen;
    for j := 0 to |labels|
      invariant counts == Tally(seen + labels[..j])
    {
      TallySnoc(seen + labels[..j], labels[j]);
      assert seen + labels[..j + 1] == seen + labels[..j] + [labels[j]];
      counts := Bump(counts, labels[j]);
    }
    assert labels[..|labels|] == labels;
  }

  /** The loop's counters agree with the issues flattened so far. */
  predicate Counted(ds: seq<IssueData>, statusCounts: map<string, nat>, assigneeCounts: map<string, nat>,
                    typeCounts: map<string, nat>, labelCounts: map<string, nat>, epicIssues: map<string, seq<string>>)
  {
    && statusCounts == Tally(Column(ds, StatusDim))
    && assigneeCounts == Tally(Column(ds, AssigneeDim))
    && typeCounts == Tally(Column(ds, TypeDim))
    && labelCounts == Tally(AllLabels(ds))
    && epicIssues == Hierarchy(ds)
  }

  /** One more issue, counted as the loop body counts it. */
  lemma CountedStep(ds: seq<IssueData>, d: IssueData, statusCounts: map<string, nat>, assigneeCounts: map<string, nat>,
                    typeCounts: map<string, nat>, labelCounts: map<string, nat>, epicIssues: map<string, seq<string>>)
    requires Counted(ds, statusCounts, assigneeCounts, typeCounts, labelCounts, epicIssues)
    ensures Counted(ds + [d], Bump(statusCounts, d.status), Bump(assigneeCounts, d.assignee), Bump(typeCounts, d.issueType),
                    Tally(AllLabels(ds) + d.labels),
                    if d.epic.None? then epicIssues
                    else epicIssues[d.epic.value := (if d.epic.value in epicIssues then epicIssues[d.epic.value] else []) + [d.key]])
  {
    ColumnSnoc(ds, d, StatusDim);
    ColumnSnoc(ds, d, AssigneeDim);
    ColumnSnoc(ds, d, TypeDim);
    TallySnoc(Column(ds, StatusDim), d.status);
    TallySnoc(Column(ds, AssigneeDim), d.assignee);
    TallySnoc(Column(ds, TypeDim), d.issueType);
    AllLabelsSnoc(ds, d);
    HierarchySnoc(ds, d);
  }

  /** `generate_report_data(issues)`. */
  method GenerateReportData(issues: seq<Issue>) returns (r: ReportResult)
    ensures r == ReportData(issues)
  {
    if issues == [] {
      return NoIssues(NoIssuesMessage);
    }
    var issuesData: seq<IssueData> := [];
    var labelCounts: map<string, nat> := map[];
    var typeCounts: map<string, nat> := map[];
    var statusCounts: map<string, nat> := map[];
    var assigneeCounts: map<string, nat> := map[];
    var epicIssues: map<string, seq<string>> := map[];
    for i := 0 to |issues|
      invariant issuesData == ExtractAll(issues[..i])
      invariant Counted(issuesData, statusCounts, assigneeCounts, typeCounts, labelCounts, epicIssues)
    {
      var issueData := Extract(issues[i]);
      CountedStep(issuesData, issueData, statusCounts, assigneeCounts, typeCounts, labelCounts, epicIssues);
      ExtractAllSnoc(issues, i);
      statusCounts := Bump(statusCounts, issueData.status);
      assigneeCounts := Bump(assigneeCounts, issueData.assignee);
      typeCounts := Bump(typeCounts, issueData.issueType);
      labelCounts := CountLabels(labelCounts, issueData.labels, AllLabels(issuesData));
      if issueData.epic.Some? {
        var epicKey := issueData.epic.value;
        epicIssues := epicIssues[epicKey := (if epicKey in epicIssues then epicIssues[epicKey] else []) + [issueData.key]];
      }
      issuesData := issuesData + [issueData];
    }
    assert issues[..|issues|] == issues;
    r := Generated(Report(|issuesData|, issuesData,
      statusCounts, assigneeCounts, typeCounts, labelCounts, EpicSizes(epicIssues), epicIssues));
  }

  /** How often `x` occurs in `xs`, counted from the front. */
  function Occurrences(xs: seq<string>, x: string): nat
    decreases |xs|
  {
    if xs == [] then 0 else (if xs[0] == x then 1 else 0) + Occurrences(xs[1..], x)
  }

  lemma {:induction false} OccurrencesAppend(a: seq<string>, b: seq<string>, x: string)
    ensures Occurrences(a + b, x) == Occurrences(a, x) + Occurrences(b, x)
    decreases |a|
  {
    if a == [] {
      assert a + b == b;
    } else {
      TailAppend(a, b);
      OccurrencesAppend(a[1..], b, x);
    }
  }

  lemma InSnoc(xs: seq<string>, k: string)
    requires xs != []
    ensures k in xs <==> k in xs[..|xs| - 1] || k == xs[|xs| - 1]
  {
    assert xs == xs[..|xs| - 1] + [xs[|xs| - 1]];
  }

  /** The counter holds exactly the values that occur, each with its number
      of occurrences: every occurrence adds one and nothing else does. */
  lemma {:induction false} TallyCounts(xs: seq<string>, k: string)
    ensures k in Tally(xs) <==> k in xs
    ensures Get(Tally(xs), k) == Occurrences(xs, k)
    decreases |xs|
  {
    if xs != [] {
      var init, last := xs[..|xs| - 1], xs[|xs| - 1];
      TallyCounts(init, k);
      assert xs == init + [last];
      OccurrencesAppend(init, [last], k);
      InSnoc(xs, k);
    }
  }

  /** `sum(m[k] for k in keys)`. */
  function SumCounts(m: map<string, nat>, keys: seq<string>): nat
    decreases |keys|
  {
    if keys == [] then 0 else Get(m, keys[0]) + SumCounts(m, keys[1..])
  }

  /** The occurrences in `xs` of each of `keys`, added up. */
  function SumOccurrences(xs: seq<string>, keys: seq<string>): nat
    decreases |keys|
  {
    if keys == [] then 0 else Occurrences(xs, keys[0]) + SumOccurrences(xs, keys[1..])
  }

  predicate Distinct(keys: seq<string>) {
    forall i, j :: 0 <= i < j < |keys| ==> keys[i] != keys[j]
  }

  lemma {:induction false} SumTally(xs: seq<string>, keys: seq<string>)
    ensures SumCounts(Tally(xs), keys) == SumOccurrences(xs, keys)
    decreases |keys|
  {
    if keys != [] {
      TallyCounts(xs, keys[0]);
      SumTally(xs, keys[1..]);
    }
  }

  /** Dropping the first element of `xs` takes away one occurrence per key equal to it. */
  lemma {:induction false} SumOccurrencesCons(xs: seq<string>, keys: seq<string>)
    requires xs != []
    ensures SumOccurrences(xs, keys) == Occurrences(keys, xs[0]) + SumOccurrences(xs[1..], keys)
    decreases |keys|
  {
    if keys != [] {
      SumOccurrencesCons(xs, keys[1..]);
    }
  }

  /** A value listed once among distinct keys occurs there once. */
  lemma {:induction false} OccurrencesDistinct(keys: seq<string>, x: string)
    requires Distinct(keys)
    ensures Occurrences(keys, x) == (if x in keys then 1 else 0)
    decreases |keys|
  {
    if keys != [] {
      assert Distinct(keys[1..]) by {
        forall i, j | 0 <= i < j < |keys[1..]|
          ensures keys[1..][i] != keys[1..][j]
        {
          assert keys[1..][i] == keys[i + 1] && keys[1..][j] == keys[j + 1];
        }
      }
      OccurrencesDistinct(keys[1..], x);
      if x == keys[0] {
        assert x !in keys[1..] by {
          forall j | 0 <= j < |keys[1..]|
            ensures keys[1..][j] != x
          {
            assert keys[1..][j] == keys[j + 1];
          }
        }
      }
      assert keys == [keys[0]] + keys[1..];
    }
  }

  /** Each element of `xs` is counted once under its own key. */
  lemma {:induction false} SumOccurrencesAll(xs: seq<string>, keys: seq<string>)
    requires Distinct(keys)
    requires forall x :: x in xs ==> x in keys
    ensures SumOccurrences(xs, keys) == |xs|
    decreases |xs|
  {
    if xs == [] {
      SumOccurrencesEmpty(keys);
    } else {
      SumOccurrencesCons(xs, keys);
      OccurrencesDistinct(keys, xs[0]);
      assert forall x :: x in xs[1..] ==> x in xs;
      SumOccurrencesAll(xs[1..], keys);
    }
  }

  lemma {:induction false} SumOccurrencesEmpty(keys: seq<string>)
    ensures SumOccurrences([], keys) == 0
    decreases |keys|
  {
    if keys != [] {
      SumOccurrencesEmpty(keys[1..]);
    }
  }

  /** Added up over its keys, each listed once, a counter gives the number
      of values counted. */
  lemma TallySum(xs: seq<string>, keys: seq<string>)
    requires Distinct(keys)
    requires forall k :: k in keys <==> k in Tally(xs)
    ensures SumCounts(Tally(xs), keys) == |xs|
  {
    forall x | x in xs
      ensures x in keys
    {
      TallyCounts(xs, x);
    }
    SumTally(xs, keys);
    SumOccurrencesAll(xs, keys);
  }

  /** The counter of one dimension in a report. */
  function Counter(rep: Report, dim: Dimension): map<string, nat> {
    match dim
    case StatusDim => rep.byStatus
    case AssigneeDim => rep.byAssignee
    case TypeDim => rep.byType
  }

  /** An empty list is refused with the error alone; otherwise `total_issues`
      is the number of issues and each one is flattened in order. */
  lemma ReportShape(issues: seq<Issue>)
    ensures ReportData(issues).NoIssues? <==> issues == []
    ensures issues == [] ==> ReportData(issues) == NoIssues(NoIssuesMessage)
    ensures issues != [] ==> var rep := ReportData(issues).report;
      rep.totalIssues == |issues| == |rep.issues| &&
      forall i :: 0 <= i < |issues| ==> rep.issues[i] == Extract(issues[i])
  {
    if issues != [] {
      forall i | 0 <= i < |issues|
        ensures ExtractAll(issues)[i] == Extract(issues[i])
      {
        ExtractAllAt(issues, i);
      }
    }
  }

  lemma {:induction false} ExtractAllAt(issues: seq<Issue>, i: nat)
    requires i < |issues|
    ensures ExtractAll(issues)[i] == Extract(issues[i])
    decreases |issues|
  {
    if i < |issues| - 1 {
      var init := issues[..|issues| - 1];
      ExtractAllAt(init, i);
    }
  }

  lemma {:induction false} ColumnAt(ds: seq<IssueData>, dim: Dimension, i: nat)
    requires i < |ds|
    ensures Column(ds, dim)[i] == Attribute(ds[i], dim)
    decreases |ds|
  {
    if i < |ds| - 1 {
      ColumnAt(ds[..|ds| - 1], dim, i);
    }
  }

  /** The counts of `by_status`, `by_assignee` and `by_type`, added up over
      their keys, each equal `total_issues`. */
  lemma CountsSumToTotal(issues: seq<Issue>, dim: Dimension, keys: seq<string>)
    requires issues != []
    requires Distinct(keys)
    requires forall k :: k in keys <==> k in Counter(ReportData(issues).report, dim)
    ensures SumCounts(Counter(ReportData(issues).report, dim), keys) == ReportData(issues).report.totalIssues
  {
    var ds := ExtractAll(issues);
    assert Counter(ReportData(issues).report, dim) == Tally(Column(ds, dim));
    TallySum(Column(ds, dim), keys);
  }

  /** An issue with no assignee is counted under `Sin asignar`, one with no
      type under `Tarea`. */
  lemma DefaultsCounted(issues: seq<Issue>, i: nat)
    requires i < |issues|
    ensures AssigneeOf(issues[i]).None? ==> Get(ReportData(issues).report.byAssignee, UnassignedName) >= 1
    ensures IssueTypeOf(issues[i]).None? ==> Get(ReportData(issues).report.byType, DefaultIssueType) >= 1
  {
    var ds := ExtractAll(issues);
    ExtractAllAt(issues, i);
    ColumnAt(ds, AssigneeDim, i);
    ColumnAt(ds, TypeDim, i);
    var a, t := Column(ds, AssigneeDim), Column(ds, TypeDim);
    TallyCounts(a, UnassignedName);
    TallyCounts(t, DefaultIssueType);
    assert a[i] in a && t[i] in t;
    OccurrencesPositive(a, UnassignedName);
    OccurrencesPositive(t, DefaultIssueType);
  }

  lemma {:induction false} OccurrencesPositive(xs: seq<string>, x: string)
    ensures x in xs <==> Occurrences(xs, x) > 0
    decreases |xs|
  {
    if xs != [] {
      OccurrencesPositive(xs[1..], x);
      assert xs == [xs[0]] + xs[1..];
    }
  }

  /** The label occurrences of each issue in turn, added up. */
  function LabelCount(ds: seq<IssueData>, l: string): nat
    decreases |ds|
  {
    if ds == [] then 0 else LabelCount(ds[..|ds| - 1], l) + Occurrences(ds[|ds| - 1].labels, l)
  }

  lemma {:induction false} AllLabelsOccurrences(ds: seq<IssueData>, l: string)
    ensures Occurrences(AllLabels(ds), l) == LabelCount(ds, l)
    decreases |ds|
  {
    if ds != [] {
      AllLabelsOccurrences(ds[..|ds| - 1], l);
      OccurrencesAppend(AllLabels(ds[..|ds| - 1]), ds[|ds| - 1].labels, l);
    }
  }

  /** Every occurrence of a label on an issue adds exactly one to `by_label`. */
  lemma LabelsCounted(issues: seq<Issue>, l: string)
    requires issues != []
    ensures Get(ReportData(issues).report.byLabel, l) == LabelCount(ReportData(issues).report.issues, l)
  {
    var ds := ExtractAll(issues);
    TallyCounts(AllLabels(ds), l);
    AllLabelsOccurrences(ds, l);
  }

  /** An issue's epic link when it is set and not empty. */
  predicate InEpic(issue: Issue, e: string) {
    e != "" && issue.fields.Some? && issue.fields.value.epicLink == Some(e)
  }

  /** The keys of the issues in epic `e`, in input order. */
  function EpicMembers(issues: seq<Issue>, e: string): seq<string>
    decreases |issues|
  {
    if issues == [] then []
    else (if InEpic(issues[0], e) then [issues[0].key] else []) + EpicMembers(issues[1..], e)
  }

  lemma {:induction false} EpicMembersAppend(a: seq<Issue>, b: seq<Issue>, e: string)
    ensures EpicMembers(a + b, e) == EpicMembers(a, e) + EpicMembers(b, e)
    decreases |a|
  {
    if a == [] {
      assert a + b == b;
    } else {
      TailAppend(a, b);
      EpicMembersAppend(a[1..], b, e);
      Regroup(if InEpic(a[0], e) then [a[0].key] else [], EpicMembers(a[1..], e), EpicMembers(b, e));
    }
  }

  /** The keys of the flattened issues whose epic is `e`, in order. */
  function EpicKeys(ds: seq<IssueData>, e: string): seq<string>
    decreases |ds|
  {
    if ds == [] then []
    else (if ds[0].epic == Some(e) then [ds[0].key] else []) + EpicKeys(ds[1..], e)
  }

  lemma {:induction false} EpicKeysAppend(a: seq<IssueData>, b: seq<IssueData>, e: string)
    ensures EpicKeys(a + b, e) == EpicKeys(a, e) + EpicKeys(b, e)
    decreases |a|
  {
    if a == [] {
      assert a + b == b;
    } else {
      TailAppend(a, b);
      EpicKeysAppend(a[1..], b, e);
      Regroup(if a[0].epic == Some(e) then [a[0].key] else [], EpicKeys(a[1..], e), EpicKeys(b, e));
    }
  }

  /** Grouping by epic keeps, per epic, the keys of its issues in order. */
  lemma {:induction false} HierarchyIsEpicKeys(ds: seq<IssueData>, e: string)
    ensures e in Hierarchy(ds) <==> EpicKeys(ds, e) != []
    ensures e in Hierarchy(ds) ==> Hierarchy(ds)[e] == EpicKeys(ds, e)
    decreases |ds|
  {
    if ds != [] {
      var init, last := ds[..|ds| - 1], ds[|ds| - 1];
      HierarchyIsEpicKeys(init, e);
      assert ds == init + [last];
      EpicKeysAppend(init, [last], e);
      HierarchyAt(init, last, e);
    }
  }

  /** Flattening keeps each issue's key and epic. */
  lemma {:induction false} EpicKeysOfIssues(issues: seq<Issue>, e: string)
    ensures EpicKeys(ExtractAll(issues), e) == EpicMembers(issues, e)
    decreases |issues|
  {
    if issues != [] {
      var init, last := issues[..|issues| - 1], issues[|issues| - 1];
      var ds, d := ExtractAll(init), Extract(last);
      assert EpicKeys(ds, e) == EpicMembers(init, e) by {
        EpicKeysOfIssues(init, e);
      }
      assert EpicKeys([d], e) == EpicMembers([last], e) by {
        ExtractEpic(last, e);
      }
      assert issues == init + [last];
      EpicMembersAppend(init, [last], e);
      EpicKeysAppend(ds, [d], e);
    }
  }

  /** `hierarchy[e]` lists, in input order, the keys of the issues whose epic
      is `e`; an epic is a key of `hierarchy` exactly when it has an issue. */
  lemma HierarchyIsEpicMembers(issues: seq<Issue>, e: string)
    ensures e in Hierarchy(ExtractAll(issues)) <==> EpicMembers(issues, e) != []
    ensures e in Hierarchy(ExtractAll(issues)) ==> Hierarchy(ExtractAll(issues))[e] == EpicMembers(issues, e)
  {
    HierarchyIsEpicKeys(ExtractAll(issues), e);
    EpicKeysOfIssues(issues, e);
  }

  lemma ExtractEpic(issue: Issue, e: string)
    ensures Extract(issue).epic == Some(e) <==> InEpic(issue, e)
    ensures Extract(issue).key == issue.key
  {
  }

  /** Epic `e`'s entry after one more issue. */
  lemma HierarchyAt(ds: seq<IssueData>, d: IssueData, e: string)
    ensures e in Hierarchy(ds + [d]) <==> e in Hierarchy(ds) || d.epic == Some(e)
    ensures e in Hierarchy(ds + [d]) ==>
      Hierarchy(ds + [d])[e] == (if e in Hierarchy(ds) then Hierarchy(ds)[e] else []) + (if d.epic == Some(e) then [d.key] else [])
  {
    HierarchySnoc(ds, d);
  }

  /** The epic statistics: `hierarchy` groups the keys by epic in input
      order and `by_epic[e]` is the size of `hierarchy[e]`. */
  lemma EpicStatistics(issues: seq<Issue>, e: string)
    requires issues != []
    ensures var rep := ReportData(issues).report;
      (e in rep.hierarchy <==> EpicMembers(issues, e) != []) &&
      (e in rep.hierarchy ==> rep.hierarchy[e] == EpicMembers(issues, e)) &&
      (e in rep.byEpic <==> e in rep.hierarchy) &&
      (e in rep.byEpic ==> rep.byEpic[e] == |EpicMembers(issues, e)|)
  {
    HierarchyIsEpicMembers(issues, e);
  }
}
