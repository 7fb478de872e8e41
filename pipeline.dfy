/**
 * The population scripts newver.py and populate_neo4j.py: preprocessing of the
 * jobs table, Skill nodes, one Job node per row with its REQUIRES_SKILL and
 * HAS_RESPONSIBILITY relationships (and, in populate_neo4j.py, a Company node
 * and a POSTED_BY relationship), then the LEADS_TO pass (newver.py only) and
 * the IS_SIMILAR_TO pass. The two scripts share everything but the Company
 * step and the LEADS_TO pass, so the per-row step takes a flag for the
 * Company step.
 */
module Pipeline {
  import opened Text
  import opened Graph
  import opened Inference

  /** A row of the jobs table: the columns the scripts read. */
  datatype JobRow = JobRow(
    jobId: JobId, title: Cell, role: Cell, company: string, location: Cell,
    skills: Cell, responsibilities: Cell)

  /** A row after preprocessing: cleaned skill and responsibility lists, standardised role. */
  datatype CleanRow = CleanRow(
    jobId: JobId, title: Cell, role: Cell, company: string, location: Cell,
    skills: seq<string>, responsibilities: seq<string>)

  // ---------------------------------------------------------------------------
  // Preprocessing

  /** The three column rewrites, applied to one row. */
  function Preprocess(row: JobRow): (c: CleanRow)
    ensures c.jobId == row.jobId && c.title == row.title && c.company == row.company && c.location == row.location
    ensures forall i :: 0 <= i < |c.skills| ==>
      c.skills[i] != [] && IsStripped(c.skills[i]) && SepFree(c.skills[i], SkillSeparators)
    ensures forall i :: 0 <= i < |c.responsibilities| ==>
      c.responsibilities[i] != [] && IsStripped(c.responsibilities[i]) && SepFree(c.responsibilities[i], PhraseSeparators)
    ensures c.role.Str? <==> row.role.Str?
    ensures c.role.Str? ==> IsStripped(c.role.s) && AllRoleChars(c.role.s)
  {
    CleanRow(row.jobId, row.title, StandardizeRole(row.role), row.company, row.location,
             CleanAndSplitSkills(row.skills), ExtractKeywords(row.responsibilities))
  }

  function PreprocessAll(table: seq<JobRow>): (rows: seq<CleanRow>)
  {
    seq(|table|, i requires 0 <= i < |table| => Preprocess(table[i]))
  }

  // ---------------------------------------------------------------------------
  // Collections over the rows

  /** The union of the cleaned skill lists. */
  function AllSkills(rows: seq<CleanRow>): set<string>
    decreases |rows|
  {
    if rows == [] then {}
    else
      var last := rows[|rows| - 1];
      AllSkills(rows[..|rows| - 1]) + set s | s in last.skills
  }

  /** A skill is collected exactly when some row lists it. */
  lemma {:induction false} AllSkillsMembers(rows: seq<CleanRow>)
    ensures forall s :: s in AllSkills(rows) <==> exists i :: 0 <= i < |rows| && s in rows[i].skills
    decreases |rows|
  {
    if rows != [] {
      var n := |rows| - 1;
      AllSkillsMembers(rows[..n]);
      assert forall i :: 0 <= i < n ==> rows[..n][i] == rows[i];
    }
  }

  /** The union of the cleaned responsibility lists. */
  function AllResponsibilities(rows: seq<CleanRow>): set<string>
    decreases |rows|
  {
    if rows == [] then {}
    else
      var last := rows[|rows| - 1];
      AllResponsibilities(rows[..|rows| - 1]) + set d | d in last.responsibilities
  }

  /** A phrase is collected exactly when some row lists it. */
  lemma {:induction false} AllResponsibilitiesMembers(rows: seq<CleanRow>)
    ensures forall d :: d in AllResponsibilities(rows) <==> exists i :: 0 <= i < |rows| && d in rows[i].responsibilities
    decreases |rows|
  {
    if rows != [] {
      var n := |rows| - 1;
      AllResponsibilitiesMembers(rows[..n]);
      assert forall i :: 0 <= i < n ==> rows[..n][i] == rows[i];
    }
  }

  /** The companies named by the rows. */
  function CompanyNames(rows: seq<CleanRow>): set<string>
    decreases |rows|
  {
    if rows == [] then {} else CompanyNames(rows[..|rows| - 1]) + {rows[|rows| - 1].company}
  }

  /** A company is collected exactly when some row names it. */
  lemma {:induction false} CompanyNamesMembers(rows: seq<CleanRow>)
    ensures forall c :: c in CompanyNames(rows) <==> exists i :: 0 <= i < |rows| && rows[i].company == c
    decreases |rows|
  {
    if rows != [] {
      var n := |rows| - 1;
      CompanyNamesMembers(rows[..n]);
      assert forall i :: 0 <= i < n ==> rows[..n][i] == rows[i];
    }
  }

  /** `list(df['Role'].dropna().unique())`: the string roles, each once, in order of first appearance. */
  function DistinctRoles(rows: seq<CleanRow>): (roles: seq<string>)
    ensures NoDuplicates(roles)
    ensures forall r :: r in roles <==> exists i :: 0 <= i < |rows| && rows[i].role == Str(r)
    decreases |rows|
  {
    if rows == [] then []
    else
      var n := |rows| - 1;
      var earlier := DistinctRoles(rows[..n]);
      assert forall i :: 0 <= i < n ==> rows[..n][i] == rows[i];
      if rows[n].role.Str? && rows[n].role.s !in earlier then earlier + [rows[n].role.s] else earlier
  }

  /** A role seen for the first time at row i is appended to the roles of the earlier rows: first-appearance order. */
  lemma DistinctRolesFirstAppearance(rows: seq<CleanRow>, i: nat)
    requires i < |rows| && rows[i].role.Str?
    requires forall j :: 0 <= j < i ==> rows[j].role != rows[i].role
    ensures DistinctRoles(rows[..i + 1]) == DistinctRoles(rows[..i]) + [rows[i].role.s]
  {
    var prefix := rows[..i + 1];
    assert prefix[..i] == rows[..i];
    assert rows[i].role.s !in DistinctRoles(rows[..i]);
  }

  /** Lines 45-47: the union of the cleaned skill lists, built row by row. */
  method CollectSkills(rows: seq<CleanRow>) returns (skillSet: set<string>)
    ensures skillSet == AllSkills(rows)
  {
    skillSet := {};
    for n := 0 to |rows|
      invariant skillSet == AllSkills(rows[..n])
    {
      assert rows[..n + 1][..n] == rows[..n];
      skillSet := skillSet + set s | s in rows[n].skills;
    }
    assert rows[..|rows|] == rows;
  }

  // ---------------------------------------------------------------------------
  // Job properties

  /** A cell as a property value: a missing cell is stored as NaN. */
  function CellValue(c: Cell): (v: Value)
    ensures v.String? <==> c.Str?
    ensures c.Str? ==> v.s == c.s
  {
    match c
    case Str(s) => String(s)
    case NonStr => NaN
  }

  /** The names of the properties set on a Job node, besides its key. */
  const JobPropertyNames: set<string> := {"title", "role", "company", "location"}

  /** The properties of `Node("Job", ...)` other than the key job_id. */
  function JobProperties(row: CleanRow): (p: Props)
    ensures p.Keys == JobPropertyNames
    ensures p["role"].String? <==> row.role.Str?
    ensures row.role.Str? ==> p["role"] == String(row.role.s)
    ensures p["company"] == String(row.company)
  {
    map["title" := CellValue(row.title), "role" := CellValue(row.role),
        "company" := String(row.company), "location" := CellValue(row.location)]
  }

  /** The role property of a Job node, null when it has none. */
  function RoleOf(p: Props): Value
  {
    if "role" in p then p["role"] else Null
  }

  function JobIds(rows: seq<CleanRow>): seq<JobId>
  {
    seq(|rows|, i requires 0 <= i < |rows| => rows[i].jobId)
  }

  function JobPropertySeq(rows: seq<CleanRow>): seq<Props>
  {
    seq(|rows|, i requires 0 <= i < |rows| => JobProperties(rows[i]))
  }

  /** The Job table after merging the rows in order onto `jobs`. */
  function JobsAfter(jobs: map<JobId, Props>, rows: seq<CleanRow>): map<JobId, Props>
  {
    MergeAll(jobs, JobIds(rows), JobPropertySeq(rows))
  }

  lemma JobsAfterStep(jobs: map<JobId, Props>, rows: seq<CleanRow>, n: nat)
    requires n < |rows|
    ensures JobsAfter(jobs, rows[..n + 1]) == MergeProps(JobsAfter(jobs, rows[..n]), rows[n].jobId, JobProperties(rows[n]))
  {
    var prefix := rows[..n + 1];
    assert JobIds(prefix)[..n] == JobIds(rows[..n]);
    assert JobPropertySeq(prefix)[..n] == JobPropertySeq(rows[..n]);
  }

  /**
   * A job id present in several rows gets the properties of its last row;
   * earlier rows leave nothing behind, because every row sets the same
   * property names. The job ids of all rows are present, and no other job
   * changes.
   */
  lemma JobsAfterLastRowWins(jobs: map<JobId, Props>, rows: seq<CleanRow>, i: nat)
    requires i < |rows|
    requires forall j :: i < j < |rows| ==> rows[j].jobId != rows[i].jobId
    ensures rows[i].jobId in JobsAfter(jobs, rows)
    ensures JobsAfter(jobs, rows)[rows[i].jobId] == Base(jobs, rows[i].jobId) + JobProperties(rows[i])
  {
    var ids, props := JobIds(rows), JobPropertySeq(rows);
    assert ids[i] == rows[i].jobId;
    assert SameNames(props);
    MergeAllLastWins(jobs, ids, props, rows[i].jobId);
    var last := LastIndexOf(ids, rows[i].jobId);
    assert last == i;
  }

  /** Exactly the old jobs and the rows' job ids are present; a job no row names is unchanged. */
  lemma JobsAfterKeys(jobs: map<JobId, Props>, rows: seq<CleanRow>)
    ensures forall id :: id in JobsAfter(jobs, rows) <==> id in jobs || exists i :: 0 <= i < |rows| && rows[i].jobId == id
    ensures forall id :: id in jobs && (forall i :: 0 <= i < |rows| ==> rows[i].jobId != id) ==>
      JobsAfter(jobs, rows)[id] == jobs[id]
  {
    var ids, props := JobIds(rows), JobPropertySeq(rows);
    MergeAllKeys(jobs, ids, props);
    assert forall id :: id in ids <==> exists i :: 0 <= i < |rows| && rows[i].jobId == id by {
      assert forall i :: 0 <= i < |rows| ==> ids[i] == rows[i].jobId;
    }
    forall id | id in jobs && (forall i :: 0 <= i < |rows| ==> rows[i].jobId != id)
      ensures JobsAfter(jobs, rows)[id] == jobs[id]
    {
      assert id !in ids;
      MergeAllUntouched(jobs, ids, props, id);
    }
  }

  // ---------------------------------------------------------------------------
  // Relationships of one row

  /** A relationship the per-row step may add for this row. */
  predicate RowEdge(row: CleanRow, postedBy: bool, e: Edge)
  {
    && e.source == JobNode(row.jobId)
    && match e.rel
       case RequiresSkill => e.target.SkillNode? && e.target.skill in row.skills
       case HasResponsibility => e.target.ResponsibilityNode? && e.target.description in row.responsibilities
       case PostedBy => postedBy && e.target == CompanyNode(row.company)
       case _ => false
  }

  /**
   * The relationships the per-row step guarantees: REQUIRES_SKILL to every
   * listed skill that has a node, HAS_RESPONSIBILITY to every phrase and, with
   * the Company step, POSTED_BY to the row's company.
   */
  predicate RowEdgesPresent(row: CleanRow, postedBy: bool, skills: set<string>, edges: seq<Edge>)
  {
    && (forall s :: s in row.skills && s in skills ==> Edge(RequiresSkill, JobNode(row.jobId), SkillNode(s)) in edges)
    && (forall d :: d in row.responsibilities ==>
          Edge(HasResponsibility, JobNode(row.jobId), ResponsibilityNode(d)) in edges)
    && (postedBy ==> Edge(PostedBy, JobNode(row.jobId), CompanyNode(row.company)) in edges)
  }

  /** Each row has the relationships the per-row step guarantees. */
  ghost predicate RowsLinked(rows: seq<CleanRow>, postedBy: bool, skills: set<string>, edges: seq<Edge>)
  {
    forall i :: 0 <= i < |rows| ==> RowEdgesPresent(rows[i], postedBy, skills, edges)
  }

  /** Every relationship from position `start` on was added by the per-row step for one of the rows. */
  ghost predicate OnlyRowEdges(rows: seq<CleanRow>, postedBy: bool, start: nat, edges: seq<Edge>)
  {
    forall k :: start <= k < |edges| ==> exists i :: 0 <= i < |rows| && RowEdge(rows[i], postedBy, edges[k])
  }

  lemma RowEdgesPresentGrow(row: CleanRow, postedBy: bool, skills: set<string>, edges: seq<Edge>, more: seq<Edge>)
    requires RowEdgesPresent(row, postedBy, skills, edges)
    requires forall e :: e in edges ==> e in more
    ensures RowEdgesPresent(row, postedBy, skills, more)
  {
  }

  /** Lines 69-72: REQUIRES_SKILL from the job to each listed skill that has a node. */
  method LinkSkills(store: Store, jobId: JobId, names: seq<string>)
    requires store.Valid() && jobId in store.jobs
    modifies store
    ensures store.Valid() && store.NodesUnchanged()
    ensures AddsOnlyNew(old(store.edges), store.edges)
    ensures forall s :: s in names && s in store.skills ==> Edge(RequiresSkill, JobNode(jobId), SkillNode(s)) in store.edges
    ensures forall k :: |old(store.edges)| <= k < |store.edges| ==>
      && store.edges[k].rel == RequiresSkill && store.edges[k].source == JobNode(jobId)
      && store.edges[k].target.SkillNode? && store.edges[k].target.skill in names
  {
    for i := 0 to |names|
      invariant store.Valid() && store.NodesUnchanged()
      invariant AddsOnlyNew(old(store.edges), store.edges)
      invariant forall j :: 0 <= j < i && names[j] in store.skills ==>
        Edge(RequiresSkill, JobNode(jobId), SkillNode(names[j])) in store.edges
      invariant forall k :: |old(store.edges)| <= k < |store.edges| ==>
        && store.edges[k].rel == RequiresSkill && store.edges[k].source == JobNode(jobId)
        && store.edges[k].target.SkillNode? && store.edges[k].target.skill in names[..i]
    {
      var e := Edge(RequiresSkill, JobNode(jobId), SkillNode(names[i]));
      var found := store.FindNode(e.target);
      if found {
        ghost var before := store.edges;
        store.MergeEdge(e);
        AddsOnlyNewTransitive(old(store.edges), before, store.edges);
        AddsOnlyNewPrefix(before, store.edges);
      }
      assert names[..i + 1] == names[..i] + [names[i]];
    }
    assert names[..|names|] == names;
  }

  /** A HAS_RESPONSIBILITY relationship from the job to one of the phrases. */
  predicate PhraseEdge(jobId: JobId, descriptions: seq<string>, e: Edge)
  {
    && e.rel == HasResponsibility && e.source == JobNode(jobId)
    && e.target.ResponsibilityNode? && e.target.description in descriptions
  }

  /** The relationships of lines 75-78 after the first i phrases, on top of `edges`. */
  ghost predicate PhrasesLinked(jobId: JobId, descriptions: seq<string>, i: nat, edges: seq<Edge>, edgesNow: seq<Edge>)
    requires i <= |descriptions|
  {
    && AddsOnlyNew(edges, edgesNow)
    && (forall j :: 0 <= j < i ==> Edge(HasResponsibility, JobNode(jobId), ResponsibilityNode(descriptions[j])) in edgesNow)
    && (forall k :: |edges| <= k < |edgesNow| ==> PhraseEdge(jobId, descriptions[..i], edgesNow[k]))
  }

  /** Merging the relationship to phrase i extends PhrasesLinked from i to i + 1. */
  lemma PhrasesStep(jobId: JobId, descriptions: seq<string>, i: nat, edges: seq<Edge>, before: seq<Edge>, after: seq<Edge>)
    requires i < |descriptions| && PhrasesLinked(jobId, descriptions, i, edges, before)
    requires after == MergeEdgeInto(before, Edge(HasResponsibility, JobNode(jobId), ResponsibilityNode(descriptions[i])))
    ensures PhrasesLinked(jobId, descriptions, i + 1, edges, after)
  {
    assert descriptions[..i + 1] == descriptions[..i] + [descriptions[i]];
    AddsOnlyNewTransitive(edges, before, after);
    AddsOnlyNewPrefix(before, after);
    forall k | |edges| <= k < |after| ensures PhraseEdge(jobId, descriptions[..i + 1], after[k]) {
      if k < |before| {
        assert after[k] == before[k];
        assert PhraseEdge(jobId, descriptions[..i], before[k]);
      }
    }
  }

  /** The phrases of a sequence one longer: those of the shorter one and the last. */
  lemma PhraseSetStep(prefix: seq<string>, longer: seq<string>)
    requires |longer| == |prefix| + 1 && longer[..|prefix|] == prefix
    ensures (set d | d in longer) == (set d | d in prefix) + {longer[|prefix|]}
  {
    assert longer == prefix + [longer[|prefix|]];
  }

  /** Lines 75-78: each phrase becomes a Responsibility node linked by HAS_RESPONSIBILITY. */
  method LinkResponsibilities(store: Store, jobId: JobId, descriptions: seq<string>)
    requires store.Valid() && jobId in store.jobs
    modifies store
    ensures store.Valid()
    ensures store.responsibilities == old(store.responsibilities) + set d | d in descriptions
    ensures store.jobs == old(store.jobs) && store.skills == old(store.skills) && store.companies == old(store.companies)
    ensures store.locations == old(store.locations) && store.datasets == old(store.datasets)
    ensures AddsOnlyNew(old(store.edges), store.edges)
    ensures forall d :: d in descriptions ==>
      Edge(HasResponsibility, JobNode(jobId), ResponsibilityNode(d)) in store.edges
    ensures forall k :: |old(store.edges)| <= k < |store.edges| ==>
      && store.edges[k].rel == HasResponsibility && store.edges[k].source == JobNode(jobId)
      && store.edges[k].target.ResponsibilityNode? && store.edges[k].target.description in descriptions
  {
    assert AddsOnlyNew(store.edges, store.edges);
    for i := 0 to |descriptions|
      invariant store.Valid() && jobId in store.jobs
      invariant store.responsibilities == old(store.responsibilities) + set d | d in descriptions[..i]
      invariant store.jobs == old(store.jobs) && store.skills == old(store.skills) && store.companies == old(store.companies)
      invariant store.locations == old(store.locations) && store.datasets == old(store.datasets)
      invariant PhrasesLinked(jobId, descriptions, i, old(store.edges), store.edges)
    {
      PhraseSetStep(descriptions[..i], descriptions[..i + 1]);
      store.MergeResponsibility(descriptions[i]);
      ghost var before := store.edges;
      store.MergeEdge(Edge(HasResponsibility, JobNode(jobId), ResponsibilityNode(descriptions[i])));
      PhrasesStep(jobId, descriptions, i, old(store.edges), before, store.edges);
    }
    assert descriptions[..|descriptions|] == descriptions;
    assert forall d :: d in descriptions ==> exists j :: 0 <= j < |descriptions| && descriptions[j] == d;
  }

  /** The per-row relationship facts, from the three stages of ProcessRow: skills, phrases and the optional POSTED_BY. */
  lemma RowEdgesCombine(row: CleanRow, postedBy: bool, skills: set<string>, e0: seq<Edge>, e1: seq<Edge>, e2: seq<Edge>, e3: seq<Edge>)
    requires AddsOnlyNew(e0, e1) && AddsOnlyNew(e1, e2)
    requires forall s :: s in row.skills && s in skills ==> Edge(RequiresSkill, JobNode(row.jobId), SkillNode(s)) in e1
    requires forall k :: |e0| <= k < |e1| ==>
      && e1[k].rel == RequiresSkill && e1[k].source == JobNode(row.jobId)
      && e1[k].target.SkillNode? && e1[k].target.skill in row.skills
    requires forall d :: d in row.responsibilities ==>
      Edge(HasResponsibility, JobNode(row.jobId), ResponsibilityNode(d)) in e2
    requires forall k :: |e1| <= k < |e2| ==> PhraseEdge(row.jobId, row.responsibilities, e2[k])
    requires e3 == if postedBy then MergeEdgeInto(e2, Edge(PostedBy, JobNode(row.jobId), CompanyNode(row.company))) else e2
    ensures AddsOnlyNew(e0, e3)
    ensures RowEdgesPresent(row, postedBy, skills, e3)
    ensures forall k :: |e0| <= k < |e3| ==> RowEdge(row, postedBy, e3[k])
  {
    AddsOnlyNewTransitive(e0, e1, e2);
    AddsOnlyNewTransitive(e0, e2, e3);
    AddsOnlyNewPrefix(e1, e2);
    AddsOnlyNewPrefix(e2, e3);
    forall k | |e0| <= k < |e3| ensures RowEdge(row, postedBy, e3[k]) {
      if k < |e1| {
        assert e3[k] == e2[k] == e1[k];
      } else if k < |e2| {
        assert e3[k] == e2[k];
        assert PhraseEdge(row.jobId, row.responsibilities, e2[k]);
      }
    }
  }

  /**
   * Lines 58-78 of newver.py, and with `postedBy` also lines 81-83 of
   * populate_neo4j.py: merge the Job node, link it to its skills and
   * responsibilities, and optionally merge its Company and link it by
   * POSTED_BY. No relationship is added twice.
   */
  method ProcessRow(store: Store, row: CleanRow, postedBy: bool)
    requires store.Valid()
    modifies store
    ensures store.Valid()
    ensures store.jobs == MergeProps(old(store.jobs), row.jobId, JobProperties(row))
    ensures store.skills == old(store.skills)
    ensures store.responsibilities == old(store.responsibilities) + set d | d in row.responsibilities
    ensures store.companies == if postedBy then MergeProps(old(store.companies), row.company, map[]) else old(store.companies)
    ensures store.locations == old(store.locations) && store.datasets == old(store.datasets)
    ensures AddsOnlyNew(old(store.edges), store.edges)
    ensures RowEdgesPresent(row, postedBy, store.skills, store.edges)
    ensures forall k :: |old(store.edges)| <= k < |store.edges| ==> RowEdge(row, postedBy, store.edges[k])
  {
    store.MergeJob(row.jobId, JobProperties(row));
    ghost var e0 := store.edges;
    LinkSkills(store, row.jobId, row.skills);
    ghost var e1 := store.edges;
    LinkResponsibilities(store, row.jobId, row.responsibilities);
    ghost var e2 := store.edges;
    if postedBy {
      store.MergeCompany(row.company, map[]);
      store.MergeEdge(Edge(PostedBy, JobNode(row.jobId), CompanyNode(row.company)));
    }
    RowEdgesCombine(row, postedBy, store.skills, e0, e1, e2, store.edges);
  }

  lemma CollectionsStep(rows: seq<CleanRow>, n: nat)
    requires n < |rows|
    ensures AllResponsibilities(rows[..n + 1]) == AllResponsibilities(rows[..n]) + set d | d in rows[n].responsibilities
    ensures CompanyNames(rows[..n + 1]) == CompanyNames(rows[..n]) + {rows[n].company}
  {
    assert rows[..n + 1][..n] == rows[..n];
  }

  /** A Company merge without properties leaves every company with the properties it had at the start, or none if it is new. */
  lemma CompaniesStep(start: map<string, Props>, before: map<string, Props>, after: map<string, Props>, name: string, postedBy: bool)
    requires start.Keys <= before.Keys
    requires forall c :: c in before ==> before[c] == Base(start, c)
    requires after == if postedBy then MergeProps(before, name, map[]) else before
    ensures forall c :: c in after ==> after[c] == Base(start, c)
  {
    if postedBy {
      assert Base(before, name) + map[] == Base(before, name);
    }
  }

  /** One more processed row: the relationship facts of the loop extend from rows[..n] to rows[..n + 1]. */
  lemma RowEdgesStep(rows: seq<CleanRow>, n: nat, postedBy: bool, start: seq<Edge>, before: seq<Edge>, after: seq<Edge>, skills: set<string>)
    requires n < |rows| && |start| <= |before|
    requires AddsOnlyNew(before, after)
    requires RowsLinked(rows[..n], postedBy, skills, before)
    requires RowEdgesPresent(rows[n], postedBy, skills, after)
    requires OnlyRowEdges(rows[..n], postedBy, |start|, before)
    requires forall k :: |before| <= k < |after| ==> RowEdge(rows[n], postedBy, after[k])
    ensures RowsLinked(rows[..n + 1], postedBy, skills, after)
    ensures OnlyRowEdges(rows[..n + 1], postedBy, |start|, after)
  {
    AddsOnlyNewPrefix(before, after);
    var prefix := rows[..n + 1];
    forall i | 0 <= i < n + 1 ensures RowEdgesPresent(prefix[i], postedBy, skills, after) {
      if i < n {
        assert prefix[i] == rows[..n][i];
        RowEdgesPresentGrow(rows[..n][i], postedBy, skills, before, after);
      }
    }
    forall k | |start| <= k < |after|
      ensures exists i :: 0 <= i < n + 1 && RowEdge(prefix[i], postedBy, after[k])
    {
      if k < |before| {
        var i :| 0 <= i < n && RowEdge(rows[..n][i], postedBy, before[k]);
        assert prefix[i] == rows[..n][i];
        assert after[k] == before[k];
      } else {
        assert prefix[n] == rows[n];
        assert RowEdge(rows[n], postedBy, after[k]);
      }
    }
  }

  /** The Company table after the first n rows: the named companies added, each with the properties it had at the start or none. */
  ghost predicate CompaniesUpTo(rows: seq<CleanRow>, n: nat, postedBy: bool, companies: map<string, Props>, companiesNow: map<string, Props>)
    requires n <= |rows|
  {
    && companiesNow.Keys == companies.Keys + (if postedBy then CompanyNames(rows[..n]) else {})
    && forall c :: c in companiesNow ==> companiesNow[c] == Base(companies, c)
  }

  /** Processing row n, as ProcessRow states it, extends CompaniesUpTo from n to n + 1. */
  lemma CompaniesUpToStep(rows: seq<CleanRow>, n: nat, postedBy: bool,
      companies: map<string, Props>, before: map<string, Props>, after: map<string, Props>)
    requires n < |rows|
    requires CompaniesUpTo(rows, n, postedBy, companies, before)
    requires after == if postedBy then MergeProps(before, rows[n].company, map[]) else before
    ensures CompaniesUpTo(rows, n + 1, postedBy, companies, after)
  {
    CollectionsStep(rows, n);
    CompaniesStep(companies, before, after, rows[n].company, postedBy);
  }

  /** The relationship facts after the first n rows, on top of `edges`. */
  ghost predicate EdgesUpTo(rows: seq<CleanRow>, n: nat, postedBy: bool, skills: set<string>, edges: seq<Edge>, edgesNow: seq<Edge>)
    requires n <= |rows|
  {
    && AddsOnlyNew(edges, edgesNow)
    && RowsLinked(rows[..n], postedBy, skills, edgesNow)
    && OnlyRowEdges(rows[..n], postedBy, |edges|, edgesNow)
  }

  /** Processing row n, as ProcessRow states it, extends EdgesUpTo from n to n + 1. */
  lemma EdgesStep(rows: seq<CleanRow>, n: nat, postedBy: bool, skills: set<string>, edges: seq<Edge>, before: seq<Edge>, after: seq<Edge>)
    requires n < |rows|
    requires EdgesUpTo(rows, n, postedBy, skills, edges, before)
    requires AddsOnlyNew(before, after)
    requires RowEdgesPresent(rows[n], postedBy, skills, after)
    requires forall k :: |before| <= k < |after| ==> RowEdge(rows[n], postedBy, after[k])
    ensures EdgesUpTo(rows, n + 1, postedBy, skills, edges, after)
  {
    AddsOnlyNewTransitive(edges, before, after);
    RowEdgesStep(rows, n, postedBy, edges, before, after, skills);
  }

  /** Lines 56-78 (and 81-83 of populate_neo4j.py) over the whole table, row by row. */
  method ProcessRows(store: Store, rows: seq<CleanRow>, postedBy: bool)
    requires store.Valid()
    modifies store
    ensures store.Valid()
    ensures store.jobs == JobsAfter(old(store.jobs), rows)
    ensures store.skills == old(store.skills)
    ensures store.responsibilities == old(store.responsibilities) + AllResponsibilities(rows)
    ensures store.companies.Keys == old(store.companies).Keys + (if postedBy then CompanyNames(rows) else {})
    ensures forall c :: c in store.companies ==> store.companies[c] == Base(old(store.companies), c)
    ensures store.locations == old(store.locations) && store.datasets == old(store.datasets)
    ensures AddsOnlyNew(old(store.edges), store.edges)
    ensures RowsLinked(rows, postedBy, store.skills, store.edges)
    ensures OnlyRowEdges(rows, postedBy, |old(store.edges)|, store.edges)
  {
    assert rows[..0] == [];
    assert AddsOnlyNew(store.edges, store.edges);
    for n := 0 to |rows|
      invariant store.Valid()
      invariant store.jobs == JobsAfter(old(store.jobs), rows[..n])
      invariant store.responsibilities == old(store.responsibilities) + AllResponsibilities(rows[..n])
      invariant CompaniesUpTo(rows, n, postedBy, old(store.companies), store.companies)
      invariant store.skills == old(store.skills)
      invariant store.locations == old(store.locations) && store.datasets == old(store.datasets)
      invariant EdgesUpTo(rows, n, postedBy, store.skills, old(store.edges), store.edges)
    {
      ghost var companies0, edges0 := store.companies, store.edges;
      JobsAfterStep(old(store.jobs), rows, n);
      CollectionsStep(rows, n);
      ProcessRow(store, rows[n], postedBy);
      CompaniesUpToStep(rows, n, postedBy, old(store.companies), companies0, store.companies);
      EdgesStep(rows, n, postedBy, store.skills, old(store.edges), edges0, store.edges);
    }
    assert rows[..|rows|] == rows;
  }

  /** Lines 49-51: a Skill node for every collected skill. */
  method MergeSkills(store: Store, skillSet: set<string>)
    requires store.Valid()
    modifies store
    ensures store.Valid()
    ensures store.skills == old(store.skills) + skillSet
    ensures store.jobs == old(store.jobs) && store.responsibilities == old(store.responsibilities)
    ensures store.companies == old(store.companies) && store.locations == old(store.locations)
    ensures store.datasets == old(store.datasets) && store.edges == old(store.edges)
  {
    var rest := skillSet;
    while rest != {}
      invariant rest <= skillSet
      invariant store.Valid()
      invariant store.skills == old(store.skills) + (skillSet - rest)
      invariant store.jobs == old(store.jobs) && store.responsibilities == old(store.responsibilities)
      invariant store.companies == old(store.companies) && store.locations == old(store.locations)
      invariant store.datasets == old(store.datasets) && store.edges == old(store.edges)
      decreases rest
    {
      var skill :| skill in rest;
      store.MergeSkill(skill);
      rest := rest - {skill};
    }
  }

  // ---------------------------------------------------------------------------
  // LEADS_TO

  /** `matcher.match("Job", role=role)`: the ids of the jobs whose role property is that string. */
  method JobsWithRole(store: Store, role: string) returns (ids: seq<JobId>)
    ensures NoDuplicates(ids)
    ensures forall id :: id in ids <==> id in store.jobs && RoleOf(store.jobs[id]) == String(role)
  {
    ids := Enumerate(set id | id in store.jobs && RoleOf(store.jobs[id]) == String(role));
  }

  /** Lines 95-100 for one job: LEADS_TO to each target job unless such a relationship exists. */
  method LinkJobFrom(store: Store, from: JobId, targets: seq<JobId>)
    requires store.Valid() && from in store.jobs
    requires forall id :: id in targets ==> id in store.jobs
    modifies store
    ensures store.Valid() && store.NodesUnchanged()
    ensures AddsOnlyNew(old(store.edges), store.edges)
    ensures forall b :: b in targets ==> Edge(LeadsTo, JobNode(from), JobNode(b)) in store.edges
    ensures forall k :: |old(store.edges)| <= k < |store.edges| ==>
      && store.edges[k].rel == LeadsTo && store.edges[k].source == JobNode(from)
      && store.edges[k].target.JobNode? && store.edges[k].target.jobId in targets
  {
    for y := 0 to |targets|
      invariant store.Valid() && store.NodesUnchanged()
      invariant AddsOnlyNew(old(store.edges), store.edges)
      invariant forall j :: 0 <= j < y ==> Edge(LeadsTo, JobNode(from), JobNode(targets[j])) in store.edges
      invariant forall k :: |old(store.edges)| <= k < |store.edges| ==>
        && store.edges[k].rel == LeadsTo && store.edges[k].source == JobNode(from)
        && store.edges[k].target.JobNode? && store.edges[k].target.jobId in targets[..y]
    {
      assert targets[..y + 1] == targets[..y] + [targets[y]];
      var e := Edge(LeadsTo, JobNode(from), JobNode(targets[y]));
      var existing := store.FindEdge(e);
      if !existing {
        ghost var before := store.edges;
        store.CreateEdge(e);
        assert store.edges == MergeEdgeInto(before, e);
        AddsOnlyNewTransitive(old(store.edges), before, store.edges);
        AddsOnlyNewPrefix(before, store.edges);
      }
    }
    assert targets[..|targets|] == targets;
  }

  /** Lines 95-100: LEADS_TO from every source job to every target job, never duplicated. */
  method LinkJobs(store: Store, sources: seq<JobId>, targets: seq<JobId>)
    requires store.Valid()
    requires forall id :: id in sources ==> id in store.jobs
    requires forall id :: id in targets ==> id in store.jobs
    modifies store
    ensures store.Valid() && store.NodesUnchanged()
    ensures AddsOnlyNew(old(store.edges), store.edges)
    ensures forall a, b :: a in sources && b in targets ==> Edge(LeadsTo, JobNode(a), JobNode(b)) in store.edges
    ensures forall k :: |old(store.edges)| <= k < |store.edges| ==>
      && store.edges[k].rel == LeadsTo
      && store.edges[k].source.JobNode? && store.edges[k].source.jobId in sources
      && store.edges[k].target.JobNode? && store.edges[k].target.jobId in targets
  {
    for x := 0 to |sources|
      invariant store.Valid() && store.NodesUnchanged()
      invariant AddsOnlyNew(old(store.edges), store.edges)
      invariant forall j, b :: 0 <= j < x && b in targets ==> Edge(LeadsTo, JobNode(sources[j]), JobNode(b)) in store.edges
      invariant forall k :: |old(store.edges)| <= k < |store.edges| ==>
        && store.edges[k].rel == LeadsTo
        && store.edges[k].source.JobNode? && store.edges[k].source.jobId in sources[..x]
        && store.edges[k].target.JobNode? && store.edges[k].target.jobId in targets
    {
      assert sources[..x + 1] == sources[..x] + [sources[x]];
      ghost var before := store.edges;
      LinkJobFrom(store, sources[x], targets);
      AddsOnlyNewTransitive(old(store.edges), before, store.edges);
      AddsOnlyNewPrefix(before, store.edges);
    }
    assert sources[..|sources|] == sources;
  }

  /** Two jobs whose roles are listed (the first in `roles1`, the second in `roles2`) and progress. */
  predicate LeadsToPair(roles1: seq<string>, roles2: seq<string>, keywords: seq<string>, p1: Props, p2: Props)
  {
    && RoleOf(p1).String? && RoleOf(p1).s in roles1
    && RoleOf(p2).String? && RoleOf(p2).s in roles2
    && Progresses(keywords, RoleOf(p1).s, RoleOf(p2).s)
  }

  /** A LEADS_TO relationship between two jobs whose roles are a progressing listed pair. */
  predicate LeadsToEdge(roles1: seq<string>, roles2: seq<string>, keywords: seq<string>, jobs: map<JobId, Props>, e: Edge)
  {
    && e.rel == LeadsTo && e.source.JobNode? && e.target.JobNode?
    && e.source.jobId in jobs && e.target.jobId in jobs
    && LeadsToPair(roles1, roles2, keywords, jobs[e.source.jobId], jobs[e.target.jobId])
  }

  /** Every pair of jobs whose roles are a progressing listed pair is linked by LEADS_TO. */
  ghost predicate AllPairsLinked(roles1: seq<string>, roles2: seq<string>, keywords: seq<string>, jobs: map<JobId, Props>, edges: seq<Edge>)
  {
    forall j1, j2 :: j1 in jobs && j2 in jobs && LeadsToPair(roles1, roles2, keywords, jobs[j1], jobs[j2]) ==>
      Edge(LeadsTo, JobNode(j1), JobNode(j2)) in edges
  }

  /** Every relationship from position `start` on is a LEADS_TO between such a pair. */
  ghost predicate OnlyPairsLinked(roles1: seq<string>, roles2: seq<string>, keywords: seq<string>, jobs: map<JobId, Props>, start: nat, edges: seq<Edge>)
  {
    forall k :: start <= k < |edges| ==> LeadsToEdge(roles1, roles2, keywords, jobs, edges[k])
  }

  /**
   * One role2 of the inner loop of lines 89-100: when role1 progresses to it,
   * the relationships added between the jobs of the two roles extend both
   * facts from roles[..y] to roles[..y + 1].
   */
  lemma LeadsToFromStep(
    role1: string, roles: seq<string>, y: nat, keywords: seq<string>, jobs: map<JobId, Props>,
    start: nat, before: seq<Edge>, after: seq<Edge>, sources: seq<JobId>, targets: seq<JobId>)
    requires y < |roles| && start <= |before| && AddsOnlyNew(before, after)
    requires AllPairsLinked([role1], roles[..y], keywords, jobs, before)
    requires OnlyPairsLinked([role1], roles[..y], keywords, jobs, start, before)
    requires !Progresses(keywords, role1, roles[y]) ==> after == before
    requires Progresses(keywords, role1, roles[y]) ==>
      && (forall id :: id in sources <==> id in jobs && RoleOf(jobs[id]) == String(role1))
      && (forall id :: id in targets <==> id in jobs && RoleOf(jobs[id]) == String(roles[y]))
      && (forall a, b :: a in sources && b in targets ==> Edge(LeadsTo, JobNode(a), JobNode(b)) in after)
      && (forall k :: |before| <= k < |after| ==>
            && after[k].rel == LeadsTo
            && after[k].source.JobNode? && after[k].source.jobId in sources
            && after[k].target.JobNode? && after[k].target.jobId in targets)
    ensures AllPairsLinked([role1], roles[..y + 1], keywords, jobs, after)
    ensures OnlyPairsLinked([role1], roles[..y + 1], keywords, jobs, start, after)
  {
    assert roles[..y + 1] == roles[..y] + [roles[y]];
    AddsOnlyNewPrefix(before, after);
    forall j1, j2 | j1 in jobs && j2 in jobs && LeadsToPair([role1], roles[..y + 1], keywords, jobs[j1], jobs[j2])
      ensures Edge(LeadsTo, JobNode(j1), JobNode(j2)) in after
    {
      if RoleOf(jobs[j2]).s != roles[y] {
        assert LeadsToPair([role1], roles[..y], keywords, jobs[j1], jobs[j2]);
      } else {
        assert j1 in sources && j2 in targets;
      }
    }
    forall k | start <= k < |after| ensures LeadsToEdge([role1], roles[..y + 1], keywords, jobs, after[k]) {
      if k < |before| {
        assert after[k] == before[k];
        assert LeadsToEdge([role1], roles[..y], keywords, jobs, before[k]);
      }
    }
  }

  /** Lines 89-100 for one role1: every role2 of the list it progresses to. */
  method LeadsToFrom(store: Store, role1: string, roles: seq<string>, keywords: seq<string>)
    requires store.Valid()
    modifies store
    ensures store.Valid() && store.NodesUnchanged()
    ensures AddsOnlyNew(old(store.edges), store.edges)
    ensures AllPairsLinked([role1], roles, keywords, store.jobs, store.edges)
    ensures OnlyPairsLinked([role1], roles, keywords, store.jobs, |old(store.edges)|, store.edges)
  {
    for y := 0 to |roles|
      invariant store.Valid() && store.NodesUnchanged()
      invariant AddsOnlyNew(old(store.edges), store.edges)
      invariant AllPairsLinked([role1], roles[..y], keywords, store.jobs, store.edges)
      invariant OnlyPairsLinked([role1], roles[..y], keywords, store.jobs, |old(store.edges)|, store.edges)
    {
      ghost var before := store.edges;
      var sources, targets := [], [];
      if Progresses(keywords, role1, roles[y]) {
        sources := JobsWithRole(store, role1);
        targets := JobsWithRole(store, roles[y]);
        LinkJobs(store, sources, targets);
        AddsOnlyNewTransitive(old(store.edges), before, store.edges);
      }
      LeadsToFromStep(role1, roles, y, keywords, store.jobs, |old(store.edges)|, before, store.edges, sources, targets);
    }
    assert roles[..|roles|] == roles;
  }

  /** One role1 of the outer loop of lines 88-100: the facts extend from roles[..x] to roles[..x + 1]. */
  lemma LeadsToPassStep(
    roles: seq<string>, x: nat, keywords: seq<string>, jobs: map<JobId, Props>,
    start: nat, before: seq<Edge>, after: seq<Edge>)
    requires x < |roles| && start <= |before| && AddsOnlyNew(before, after)
    requires AllPairsLinked(roles[..x], roles, keywords, jobs, before)
    requires OnlyPairsLinked(roles[..x], roles, keywords, jobs, start, before)
    requires AllPairsLinked([roles[x]], roles, keywords, jobs, after)
    requires OnlyPairsLinked([roles[x]], roles, keywords, jobs, |before|, after)
    ensures AllPairsLinked(roles[..x + 1], roles, keywords, jobs, after)
    ensures OnlyPairsLinked(roles[..x + 1], roles, keywords, jobs, start, after)
  {
    assert roles[..x + 1] == roles[..x] + [roles[x]];
    AddsOnlyNewPrefix(before, after);
    forall j1, j2 | j1 in jobs && j2 in jobs && LeadsToPair(roles[..x + 1], roles, keywords, jobs[j1], jobs[j2])
      ensures Edge(LeadsTo, JobNode(j1), JobNode(j2)) in after
    {
      if RoleOf(jobs[j1]).s != roles[x] {
        assert LeadsToPair(roles[..x], roles, keywords, jobs[j1], jobs[j2]);
      } else {
        assert LeadsToPair([roles[x]], roles, keywords, jobs[j1], jobs[j2]);
      }
    }
    forall k | start <= k < |after| ensures LeadsToEdge(roles[..x + 1], roles, keywords, jobs, after[k]) {
      if k < |before| {
        assert after[k] == before[k];
        assert LeadsToEdge(roles[..x], roles, keywords, jobs, before[k]);
      } else {
        assert LeadsToEdge([roles[x]], roles, keywords, jobs, after[k]);
      }
    }
  }

  /**
   * Lines 85-101: for every ordered pair of listed roles that progresses,
   * LEADS_TO from every job of the first role to every job of the second,
   * checking for an existing relationship first. Afterwards exactly those
   * pairs are linked on top of what was there, each once.
   */
  method LeadsToPass(store: Store, roles: seq<string>, keywords: seq<string>)
    requires store.Valid()
    modifies store
    ensures store.Valid() && store.NodesUnchanged()
    ensures AddsOnlyNew(old(store.edges), store.edges)
    ensures AllPairsLinked(roles, roles, keywords, store.jobs, store.edges)
    ensures OnlyPairsLinked(roles, roles, keywords, store.jobs, |old(store.edges)|, store.edges)
  {
    for x := 0 to |roles|
      invariant store.Valid() && store.NodesUnchanged()
      invariant AddsOnlyNew(old(store.edges), store.edges)
      invariant AllPairsLinked(roles[..x], roles, keywords, store.jobs, store.edges)
      invariant OnlyPairsLinked(roles[..x], roles, keywords, store.jobs, |old(store.edges)|, store.edges)
    {
      ghost var before := store.edges;
      LeadsToFrom(store, roles[x], roles, keywords);
      AddsOnlyNewTransitive(old(store.edges), before, store.edges);
      LeadsToPassStep(roles, x, keywords, store.jobs, |old(store.edges)|, before, store.edges);
    }
    assert roles[..|roles|] == roles;
  }

  /** With the keyword list of newver.py the LEADS_TO pass adds nothing. */
  lemma LeadsToPassAddsNothing(roles: seq<string>, jobs: map<JobId, Props>, before: seq<Edge>, after: seq<Edge>)
    requires AddsOnlyNew(before, after)
    requires OnlyPairsLinked(roles, roles, HierarchyKeywords, jobs, |before|, after)
    ensures after == before
  {
    if |after| > |before| {
      var e := after[|before|];
      HierarchyKeywordsNeverProgress(RoleOf(jobs[e.source.jobId]).s, RoleOf(jobs[e.target.jobId]).s);
      assert false;
    }
    assert after == after[..|before|];
  }

  // ---------------------------------------------------------------------------
  // IS_SIMILAR_TO

  /** Two listed skills with nodes, the first similar to the second. */
  predicate SimilarPair(list1: seq<string>, list2: seq<string>, skills: set<string>, a: string, b: string)
  {
    a in list1 && b in list2 && a in skills && b in skills && Similar(a, b)
  }

  /** An IS_SIMILAR_TO relationship between two skills of a similar listed pair. */
  predicate SimilarityEdge(list: seq<string>, skills: set<string>, e: Edge)
  {
    && e.rel == IsSimilarTo && e.source.SkillNode? && e.target.SkillNode?
    && SimilarPair(list, list, skills, e.source.skill, e.target.skill)
  }

  /** An IS_SIMILAR_TO relationship between two similar skills of the set. */
  predicate SimilarIn(skillSet: set<string>, e: Edge)
  {
    && e.rel == IsSimilarTo && e.source.SkillNode? && e.target.SkillNode?
    && e.source.skill in skillSet && e.target.skill in skillSet
    && Similar(e.source.skill, e.target.skill)
  }

  /** Lines 109-116 for one skill1. */
  method SimilarFrom(store: Store, skill1: string, list: seq<string>)
    requires store.Valid()
    modifies store
    ensures store.Valid() && store.NodesUnchanged()
    ensures AddsOnlyNew(old(store.edges), store.edges)
    ensures forall b :: SimilarPair([skill1], list, store.skills, skill1, b) ==>
      Edge(IsSimilarTo, SkillNode(skill1), SkillNode(b)) in store.edges
    ensures forall k :: |old(store.edges)| <= k < |store.edges| ==>
      && store.edges[k].rel == IsSimilarTo && store.edges[k].source == SkillNode(skill1)
      && store.edges[k].target.SkillNode? && SimilarPair([skill1], list, store.skills, skill1, store.edges[k].target.skill)
  {
    for y := 0 to |list|
      invariant store.Valid() && store.NodesUnchanged()
      invariant AddsOnlyNew(old(store.edges), store.edges)
      invariant forall b :: SimilarPair([skill1], list[..y], store.skills, skill1, b) ==>
        Edge(IsSimilarTo, SkillNode(skill1), SkillNode(b)) in store.edges
      invariant forall k :: |old(store.edges)| <= k < |store.edges| ==>
        && store.edges[k].rel == IsSimilarTo && store.edges[k].source == SkillNode(skill1)
        && store.edges[k].target.SkillNode? && SimilarPair([skill1], list[..y], store.skills, skill1, store.edges[k].target.skill)
    {
      assert list[..y + 1] == list[..y] + [list[y]];
      var skill2 := list[y];
      if Similar(skill1, skill2) {
        var found1 := store.FindNode(SkillNode(skill1));
        var found2 := store.FindNode(SkillNode(skill2));
        if found1 && found2 {
          var e := Edge(IsSimilarTo, SkillNode(skill1), SkillNode(skill2));
          var existing := store.FindEdge(e);
          if !existing {
            ghost var before := store.edges;
            store.CreateEdge(e);
            assert store.edges == MergeEdgeInto(before, e);
            AddsOnlyNewTransitive(old(store.edges), before, store.edges);
            AddsOnlyNewPrefix(before, store.edges);
          }
        }
      }
    }
    assert list[..|list|] == list;
  }

  /** The IS_SIMILAR_TO facts of lines 107-116 after the first x skills of the outer loop, on top of `edges`. */
  ghost predicate SimilarUpTo(list: seq<string>, x: nat, skills: set<string>, edges: seq<Edge>, edgesNow: seq<Edge>)
    requires x <= |list|
  {
    && AddsOnlyNew(edges, edgesNow)
    && (forall a, b :: SimilarPair(list[..x], list, skills, a, b) ==> Edge(IsSimilarTo, SkillNode(a), SkillNode(b)) in edgesNow)
    && (forall k :: |edges| <= k < |edgesNow| ==>
          && edgesNow[k].rel == IsSimilarTo && edgesNow[k].source.SkillNode? && edgesNow[k].target.SkillNode?
          && SimilarPair(list[..x], list, skills, edgesNow[k].source.skill, edgesNow[k].target.skill))
  }

  /** The inner loop for skill x, as SimilarFrom states it, extends SimilarUpTo from x to x + 1. */
  lemma SimilarStep(list: seq<string>, x: nat, skills: set<string>, edges: seq<Edge>, before: seq<Edge>, after: seq<Edge>)
    requires x < |list| && SimilarUpTo(list, x, skills, edges, before)
    requires AddsOnlyNew(before, after)
    requires forall b :: SimilarPair([list[x]], list, skills, list[x], b) ==>
      Edge(IsSimilarTo, SkillNode(list[x]), SkillNode(b)) in after
    requires forall k :: |before| <= k < |after| ==>
      && after[k].rel == IsSimilarTo && after[k].source == SkillNode(list[x])
      && after[k].target.SkillNode? && SimilarPair([list[x]], list, skills, list[x], after[k].target.skill)
    ensures SimilarUpTo(list, x + 1, skills, edges, after)
  {
    assert list[..x + 1] == list[..x] + [list[x]];
    AddsOnlyNewTransitive(edges, before, after);
    AddsOnlyNewPrefix(before, after);
    forall a, b | SimilarPair(list[..x + 1], list, skills, a, b)
      ensures Edge(IsSimilarTo, SkillNode(a), SkillNode(b)) in after
    {
      if a != list[x] {
        assert SimilarPair(list[..x], list, skills, a, b);
      } else {
        assert SimilarPair([list[x]], list, skills, list[x], b);
      }
    }
    forall k | |edges| <= k < |after|
      ensures SimilarPair(list[..x + 1], list, skills, after[k].source.skill, after[k].target.skill)
    {
      if k < |before| {
        assert after[k] == before[k];
      }
    }
  }

  /**
   * Lines 107-116: IS_SIMILAR_TO between every ordered pair of listed skills
   * that are similar and have nodes, checking for an existing relationship
   * first. Afterwards exactly those pairs are linked on top of what was
   * there, each once.
   */
  method SimilarityPass(store: Store, list: seq<string>)
    requires store.Valid()
    modifies store
    ensures store.Valid() && store.NodesUnchanged()
    ensures AddsOnlyNew(old(store.edges), store.edges)
    ensures forall a, b :: SimilarPair(list, list, store.skills, a, b) ==>
      Edge(IsSimilarTo, SkillNode(a), SkillNode(b)) in store.edges
    ensures forall k :: |old(store.edges)| <= k < |store.edges| ==> SimilarityEdge(list, store.skills, store.edges[k])
  {
    assert AddsOnlyNew(store.edges, store.edges);
    for x := 0 to |list|
      invariant store.Valid() && store.NodesUnchanged()
      invariant SimilarUpTo(list, x, store.skills, old(store.edges), store.edges)
    {
      ghost var before := store.edges;
      SimilarFrom(store, list[x], list);
      SimilarStep(list, x, store.skills, old(store.edges), before, store.edges);
    }
    assert list[..|list|] == list;
  }

  /** The similarity pass over an enumeration of the collected skills links every similar collected pair, and only such pairs. */
  lemma SimilarCollectedLinked(list: seq<string>, collected: set<string>, skills: set<string>, start: nat, edges: seq<Edge>)
    requires forall x :: x in list <==> x in collected
    requires collected <= skills
    requires forall a, b :: SimilarPair(list, list, skills, a, b) ==> Edge(IsSimilarTo, SkillNode(a), SkillNode(b)) in edges
    requires forall k :: start <= k < |edges| ==> SimilarityEdge(list, skills, edges[k])
    ensures forall a, b :: a in collected && b in collected && Similar(a, b) ==> Edge(IsSimilarTo, SkillNode(a), SkillNode(b)) in edges
    ensures forall k :: start <= k < |edges| ==> SimilarIn(collected, edges[k])
  {
    forall a, b | a in collected && b in collected && Similar(a, b)
      ensures Edge(IsSimilarTo, SkillNode(a), SkillNode(b)) in edges
    {
      assert SimilarPair(list, list, skills, a, b);
    }
    forall k | start <= k < |edges| ensures SimilarIn(collected, edges[k]) {
      assert SimilarityEdge(list, skills, edges[k]);
    }
  }

  /** Lines 104-116: IS_SIMILAR_TO between every similar pair of collected skills, in some enumeration of the set. */
  method LinkSimilarSkills(store: Store, skillSet: set<string>)
    requires store.Valid() && skillSet <= store.skills
    modifies store
    ensures store.Valid() && store.NodesUnchanged()
    ensures AddsOnlyNew(old(store.edges), store.edges)
    ensures forall a, b :: a in skillSet && b in skillSet && Similar(a, b) ==>
      Edge(IsSimilarTo, SkillNode(a), SkillNode(b)) in store.edges
    ensures forall k :: |old(store.edges)| <= k < |store.edges| ==> SimilarIn(skillSet, store.edges[k])
  {
    var list := Enumerate(skillSet);
    SimilarityPass(store, list);
    SimilarCollectedLinked(list, skillSet, store.skills, |old(store.edges)|, store.edges);
  }

  // ---------------------------------------------------------------------------
  // The two scripts

  /** A relationship one of the scripts may add: a per-row one, or IS_SIMILAR_TO between collected similar skills. */
  ghost predicate PopulationEdge(rows: seq<CleanRow>, postedBy: bool, e: Edge)
  {
    || (exists i :: 0 <= i < |rows| && RowEdge(rows[i], postedBy, e))
    || (&& e.rel == IsSimilarTo && e.source.SkillNode? && e.target.SkillNode?
        && e.source.skill in AllSkills(rows) && e.target.skill in AllSkills(rows)
        && Similar(e.source.skill, e.target.skill))
  }

  lemma RowsLinkedGrow(rows: seq<CleanRow>, postedBy: bool, skills: set<string>, edges: seq<Edge>, more: seq<Edge>)
    requires RowsLinked(rows, postedBy, skills, edges)
    requires AddsOnlyNew(edges, more)
    ensures RowsLinked(rows, postedBy, skills, more)
  {
    AddsOnlyNewPrefix(edges, more);
    forall i | 0 <= i < |rows| ensures RowEdgesPresent(rows[i], postedBy, skills, more) {
      RowEdgesPresentGrow(rows[i], postedBy, skills, edges, more);
    }
  }

  /**
   * Once every collected skill has a node, the lookup of lines 69-72 never
   * fails: every row has REQUIRES_SKILL to each of its cleaned skills.
   */
  lemma EverySkillLinked(rows: seq<CleanRow>, postedBy: bool, skills: set<string>, edges: seq<Edge>)
    requires RowsLinked(rows, postedBy, skills, edges)
    requires AllSkills(rows) <= skills
    ensures forall i, s :: 0 <= i < |rows| && s in rows[i].skills ==>
      Edge(RequiresSkill, JobNode(rows[i].jobId), SkillNode(s)) in edges
  {
    AllSkillsMembers(rows);
    forall i, s | 0 <= i < |rows| && s in rows[i].skills
      ensures Edge(RequiresSkill, JobNode(rows[i].jobId), SkillNode(s)) in edges
    {
      assert s in AllSkills(rows);
      assert RowEdgesPresent(rows[i], postedBy, skills, edges);
    }
  }

  /** The relationships of the per-row step, kept in a longer sequence, are population relationships. */
  lemma RowEdgesArePopulation(rows: seq<CleanRow>, postedBy: bool, start: nat, loaded: seq<Edge>, after: seq<Edge>)
    requires |loaded| <= |after| && forall k :: 0 <= k < |loaded| ==> after[k] == loaded[k]
    requires OnlyRowEdges(rows, postedBy, start, loaded)
    ensures forall k :: start <= k < |loaded| ==> PopulationEdge(rows, postedBy, after[k]) && after[k].rel != LeadsTo
  {
    forall k | start <= k < |loaded| ensures PopulationEdge(rows, postedBy, after[k]) && after[k].rel != LeadsTo {
      var i :| 0 <= i < |rows| && RowEdge(rows[i], postedBy, loaded[k]);
      assert RowEdge(rows[i], postedBy, after[k]);
    }
  }

  /** The relationships of the similarity pass over the collected skills are population relationships. */
  lemma SimilarEdgesArePopulation(rows: seq<CleanRow>, postedBy: bool, start: nat, after: seq<Edge>)
    requires forall k :: start <= k < |after| ==> SimilarIn(AllSkills(rows), after[k])
    ensures forall k :: start <= k < |after| ==> PopulationEdge(rows, postedBy, after[k]) && after[k].rel != LeadsTo
  {
    forall k | start <= k < |after| ensures PopulationEdge(rows, postedBy, after[k]) && after[k].rel != LeadsTo {
      assert SimilarIn(AllSkills(rows), after[k]);
    }
  }

  /**
   * The end of both scripts: from the facts of the per-row step and of the
   * similarity pass over `skillSet`, every row keeps its relationships, every
   * listed skill is linked, and every relationship added is a population one.
   */
  lemma PopulationFinish(
    rows: seq<CleanRow>, postedBy: bool, skillSet: set<string>, skills: set<string>,
    start: seq<Edge>, loaded: seq<Edge>, after: seq<Edge>)
    requires skillSet == AllSkills(rows) && skillSet <= skills
    requires AddsOnlyNew(start, loaded) && AddsOnlyNew(loaded, after)
    requires RowsLinked(rows, postedBy, skills, loaded)
    requires OnlyRowEdges(rows, postedBy, |start|, loaded)
    requires forall k :: |loaded| <= k < |after| ==> SimilarIn(skillSet, after[k])
    ensures AddsOnlyNew(start, after)
    ensures RowsLinked(rows, postedBy, skills, after)
    ensures forall i, s :: 0 <= i < |rows| && s in rows[i].skills ==>
      Edge(RequiresSkill, JobNode(rows[i].jobId), SkillNode(s)) in after
    ensures forall k :: |start| <= k < |after| ==> PopulationEdge(rows, postedBy, after[k]) && after[k].rel != LeadsTo
  {
    AddsOnlyNewPrefix(loaded, after);
    RowEdgesArePopulation(rows, postedBy, |start|, loaded, after);
    SimilarEdgesArePopulation(rows, postedBy, |loaded|, after);
    AddsOnlyNewTransitive(start, loaded, after);
    RowsLinkedGrow(rows, postedBy, skills, loaded, after);
    EverySkillLinked(rows, postedBy, skills, after);
  }

  /** Lines 45-81: collect and merge the skills, then process every row in order. */
  method LoadRows(store: Store, rows: seq<CleanRow>, postedBy: bool) returns (skillSet: set<string>)
    requires store.Valid()
    modifies store
    ensures skillSet == AllSkills(rows)
    ensures store.Valid()
    ensures store.skills == old(store.skills) + AllSkills(rows)
    ensures store.jobs == JobsAfter(old(store.jobs), rows)
    ensures store.responsibilities == old(store.responsibilities) + AllResponsibilities(rows)
    ensures store.companies.Keys == old(store.companies).Keys + (if postedBy then CompanyNames(rows) else {})
    ensures forall c :: c in store.companies ==> store.companies[c] == Base(old(store.companies), c)
    ensures store.locations == old(store.locations) && store.datasets == old(store.datasets)
    ensures AddsOnlyNew(old(store.edges), store.edges)
    ensures RowsLinked(rows, postedBy, store.skills, store.edges)
    ensures OnlyRowEdges(rows, postedBy, |old(store.edges)|, store.edges)
  {
    skillSet := CollectSkills(rows);
    MergeSkills(store, skillSet);
    ProcessRows(store, rows, postedBy);
  }

  /**
   * newver.py as a whole, on a graph that may already hold data: every string
   * of the tables' skill lists gets a Skill node, every row a Job node with the
   * properties of the last row with its id, every listed skill and phrase a
   * relationship from its job, every similar pair of collected skills an
   * IS_SIMILAR_TO relationship; LEADS_TO adds nothing with the keyword list as
   * written; no relationship is added twice.
   */
  method RunNewver(store: Store, table: seq<JobRow>)
    requires store.Valid()
    modifies store
    ensures store.Valid()
    ensures store.skills == old(store.skills) + AllSkills(PreprocessAll(table))
    ensures store.jobs == JobsAfter(old(store.jobs), PreprocessAll(table))
    ensures store.responsibilities == old(store.responsibilities) + AllResponsibilities(PreprocessAll(table))
    ensures store.companies == old(store.companies)
    ensures store.locations == old(store.locations) && store.datasets == old(store.datasets)
    ensures AddsOnlyNew(old(store.edges), store.edges)
    ensures RowsLinked(PreprocessAll(table), false, store.skills, store.edges)
    ensures forall i, s :: 0 <= i < |table| && s in PreprocessAll(table)[i].skills ==>
      Edge(RequiresSkill, JobNode(table[i].jobId), SkillNode(s)) in store.edges
    ensures forall a, b :: a in AllSkills(PreprocessAll(table)) && b in AllSkills(PreprocessAll(table)) && Similar(a, b) ==>
      Edge(IsSimilarTo, SkillNode(a), SkillNode(b)) in store.edges
    ensures forall k :: |old(store.edges)| <= k < |store.edges| ==>
      PopulationEdge(PreprocessAll(table), false, store.edges[k]) && store.edges[k].rel != LeadsTo
  {
    var rows := PreprocessAll(table);
    var skillSet := LoadRows(store, rows, false);
    assert store.companies == old(store.companies) by {
      assert forall c :: c in store.companies ==> c in old(store.companies);
    }
    ghost var loaded := store.edges;
    var roles := DistinctRoles(rows);
    LeadsToPass(store, roles, HierarchyKeywords);
    LeadsToPassAddsNothing(roles, store.jobs, loaded, store.edges);
    LinkSimilarSkills(store, skillSet);
    PopulationFinish(rows, false, skillSet, store.skills, old(store.edges), loaded, store.edges);
  }

  /**
   * populate_neo4j.py as a whole: as newver.py without the LEADS_TO pass, and
   * with a Company node per named company and a POSTED_BY relationship from
   * every row's job to its company.
   */
  method RunPopulate(store: Store, table: seq<JobRow>)
    requires store.Valid()
    modifies store
    ensures store.Valid()
    ensures store.skills == old(store.skills) + AllSkills(PreprocessAll(table))
    ensures store.jobs == JobsAfter(old(store.jobs), PreprocessAll(table))
    ensures store.responsibilities == old(store.responsibilities) + AllResponsibilities(PreprocessAll(table))
    ensures store.companies.Keys == old(store.companies).Keys + CompanyNames(PreprocessAll(table))
    ensures forall c :: c in store.companies ==> store.companies[c] == Base(old(store.companies), c)
    ensures store.locations == old(store.locations) && store.datasets == old(store.datasets)
    ensures AddsOnlyNew(old(store.edges), store.edges)
    ensures RowsLinked(PreprocessAll(table), true, store.skills, store.edges)
    ensures forall i, s :: 0 <= i < |table| && s in PreprocessAll(table)[i].skills ==>
      Edge(RequiresSkill, JobNode(table[i].jobId), SkillNode(s)) in store.edges
    ensures forall a, b :: a in AllSkills(PreprocessAll(table)) && b in AllSkills(PreprocessAll(table)) && Similar(a, b) ==>
      Edge(IsSimilarTo, SkillNode(a), SkillNode(b)) in store.edges
    ensures forall k :: |old(store.edges)| <= k < |store.edges| ==> PopulationEdge(PreprocessAll(table), true, store.edges[k])
  {
    var rows := PreprocessAll(table);
    var skillSet := LoadRows(store, rows, true);
    ghost var loaded := store.edges;
    LinkSimilarSkills(store, skillSet);
    PopulationFinish(rows, true, skillSet, store.skills, old(store.edges), loaded, store.edges);
  }
}
