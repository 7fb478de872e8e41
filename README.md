# Job-graph population: a verified model

This project models the batch logic that fills the job-market property graph of
MDB-FinalProject. It has three parts:

- **The text normalizers** (`text.dfy`, module `Text`; `json_repair.dfy`,
  module `JsonRepair`):
  - `clean_and_split_skills` cuts out `(...)` asides and splits a skills cell
    on `,` and ` and `;
  - `extract_keywords_from_responsibilities` splits a responsibilities cell on
    `,`, `.` and ` and `;
  - `standardize_role` keeps only ASCII letters, digits and whitespace, then
    strips;
  - the importer's `clean_mid_sentence_quotes` (a left-to-right scanner for the
    pattern whitespace, `"`, non-quotes, `"`, whitespace) and the guard of
    `safe_parse_json`.

  newver.py and populate_neo4j.py define the same three normalizers on the same
  lines (13-33). They are modelled once, and the table cites newver.py.
- **The population scripts** newver.py and populate_neo4j.py (`pipeline.dfy`,
  module `Pipeline`, with the two pass conditions in `inference.dfy`, module
  `Inference`). The steps are:
  - preprocess the table;
  - collect the skill set and merge a Skill node per skill;
  - per row, merge the Job and its REQUIRES_SKILL and HAS_RESPONSIBILITY
    relationships (populate_neo4j.py also merges the Company and its POSTED_BY
    relationship);
  - run the LEADS_TO pass (newver.py only);
  - run the IS_SIMILAR_TO pass.

  The keyword list of the LEADS_TO pass is a parameter. The general edge
  characterisation is proved for any list. For the literal list of newver.py it
  is also proved that no pair of roles ever qualifies, so the pass adds nothing.
- **The marker-gated importer** `Neo4jImporter.import_jobs` of neo4jImport.py
  and its transaction functions (`importer.dfy`, module `Importer`):
  - a file whose Dataset marker exists is skipped with no write at all;
  - otherwise the marker is merged first, and then each record does, in order:
    Job MERGE+SET, Company MERGE+SET, POSTED_BY MATCH+MERGE, Location MERGE and
    LOCATED_IN MATCH+MERGE.

The graph store (`graph.dfy`, module `Graph`, class `Store`) is modelled from
what the Cypher and py2neo calls say, not from the database:

- **Node tables.** There is one table per label, keyed by the label's natural
  key (Job by job_id, Skill by name, Responsibility by description, Company by
  name, Location by all four of its properties, Dataset by path). A key
  therefore never names two nodes.
- **Node MERGE with properties** keeps the properties already there and
  overwrites the listed ones. This is py2neo's `merge` and Cypher's
  `MERGE ... SET`.
- **Relationships** are a sequence of (type, from, to) triples.
  - A relationship MERGE adds the triple unless it is present.
  - A CREATE appends it unconditionally.
  - So the "look for an existing relationship, then create" guards of the two
    inference passes do real work: every pass is proved to add no second copy
    of a relationship that is already there (`AddsOnlyNew`).

Each script, each pass and each transaction function is a method on the store.
Its contract gives the new node tables exactly as a function of the input rows
(folds such as `JobsAfter` and `CompaniesAfter`, with last-write-wins lemmas).
It also gives the relationships that must exist afterwards and the only ones
that may have been added.

Three behaviours of the code are easy to misread, and the model keeps them as
written:

- **LEADS_TO keywords.** newver.py:86-92 tests the capitalised keywords
  (`"Junior"`, `"Mid"`, …) against lower-cased roles, so the test is not the
  case-insensitive match it looks like: no pair ever matches
  (`Inference.HierarchyKeywordsNeverProgress`,
  `Pipeline.LeadsToPassAddsNothing`).
- **LEADS_TO role pairs.** The double loop of newver.py:88-89 runs over all
  pairs of roles and does not exclude `role1 == role2`, and neither does
  `Pipeline.LeadsToPair`.
- **POSTED_BY.** The `merge` of populate_neo4j.py:80-83 gives a job two
  POSTED_BY links when two rows share a job_id and name different companies.
  What is proved is that each row's job is linked to that row's company, and
  that no POSTED_BY triple is added twice.

## Model

| member | source | states |
|---|---|---|
| Text.Lower | newver.py:91 | `str.lower` on ASCII: same length, each character lower-cased, no upper-case letter remains |
| Text.Strip | newver.py:15 | `str.strip`: the result is a contiguous slice of the input with no surrounding whitespace, what is cut from either end is whitespace, and it is empty exactly when the input is blank |
| Text.StrippedIsFixed | newver.py:18 | stripping an already stripped string returns it unchanged (strip is idempotent) |
| Text.StripKeepsAbsence | newver.py:18 | stripping never makes a separator appear that was not in the piece |
| Text.Split | newver.py:18 | `re.split` on a literal alternation always yields at least one piece |
| Text.SplitSepFree | newver.py:18 | the first piece of `re.split` is a prefix of the text and no piece contains any separator |
| Text.SplitLeftmost | newver.py:18 | `re.split` cuts at the leftmost match: no separator matches at any position inside the first piece, and one matches right after it when another piece follows |
| Text.SplitRoundTrip | newver.py:18 | the pieces interleaved with the cut-out separators rebuild the original text, with one more piece than separators |
| Text.StripNonBlankOrigin | newver.py:18 | every kept skill is the stripped form of some split piece |
| Text.StripNonBlankKeeps | newver.py:18 | every split piece that is not blank after stripping is kept |
| Text.StripNonBlankSepFree | newver.py:18 | stripping and dropping blanks keeps the pieces separator-free |
| Text.FindClose | newver.py:17 | the lazy `\(.*?\)` match: the first `)` after the `(`, provided no line break comes before it; none when every `)` is preceded by a line break |
| Text.RemoveParens | newver.py:17 | the substitution never lengthens the text and leaves text without `(` unchanged |
| Text.RemoveParensRemovesAll | newver.py:17 | after the substitution the aside pattern matches nowhere in the text |
| Text.FindCloseAt | newver.py:17 | in b + ")" + c the closing parenthesis is found right after b when b has no `)` and no line break |
| Text.RemoveParensAside | newver.py:17 | an aside `(b)` after text without `(` is cut out together with its parentheses |
| Text.AsideRemovedBeforeSplit | newver.py:17-18 | the skills of a + "(" + b + ")" + c are the stripped non-blank pieces of a + c: the aside is removed before splitting |
| Text.SkillsWithoutAsides | newver.py:17-18 | text without `(` is split as it is |
| Text.CleanAndSplitSkills | newver.py:13-18 | a non-string or blank cell gives no skills; otherwise every skill is non-empty, stripped, and contains neither `,` nor ` and ` |
| Text.ExtractKeywords | newver.py:21-26 | a non-string or blank cell gives no phrases; otherwise every phrase is non-empty, stripped, and contains none of `,`, `.`, ` and ` |
| Text.KeepRoleChars | newver.py:33 | only letters, digits and whitespace remain; every such input character survives and every output character comes from the input; a string already of that form is unchanged |
| Text.StandardizeRole | newver.py:29-33 | a non-string is returned unchanged; a string becomes stripped and made only of ASCII letters, digits and whitespace |
| Text.StandardizeRoleIdempotent | newver.py:29-33 | standardising a standardised role changes nothing |
| JsonRepair.QuoteMatch | neo4jImport.py:48 | the pattern matches exactly when the text starts with whitespace, `"`, at least one non-quote, the very next `"`, whitespace, and then the result is the position of that closing quote |
| JsonRepair.CleanMidSentenceQuotes | neo4jImport.py:42-49 | the length is preserved and every character is kept, or is whitespace turned into a space, or is a `"` turned into `'` |
| JsonRepair.ChangesOnlyInMatches | neo4jImport.py:48 | a character is changed only inside a match that `re.sub` replaces: the matches are those of a left-to-right scan that resumes after each match, and everything outside them is kept |
| JsonRepair.SpansReplaced | neo4jImport.py:48 | every match the scan takes, `\s"b"\s`, is replaced by ` 'b' ` in place, with the quoted text kept |
| JsonRepair.StartsApart | neo4jImport.py:48 | the matches `re.sub` replaces do not overlap: each later match starts at or after the end of every earlier one, so a consumed whitespace character is never reused (` "a" "b" ` keeps its second pair of quotes) |
| JsonRepair.QuotedSpanRepaired | neo4jImport.py:43-48 | a span `"b"` between two whitespace characters, in text with no other `"`, becomes ` 'b' ` and the text around it is kept |
| JsonRepair.QuotesNotIncreased | neo4jImport.py:48 | the number of `"` never increases |
| JsonRepair.NoQuoteUnchanged | neo4jImport.py:48 | text without `"` is returned unchanged |
| JsonRepair.SafeParseJson | neo4jImport.py:52-65 | blank text, `{}` after stripping, and text the decoder rejects all give an empty profile; any other text gives exactly the object the decoder returned |
| Inference.JavaScriptExample | newver.py:110 | the similarity test is directional: Java is similar to JavaScript, not the reverse |
| Inference.SimilarUpToCase | newver.py:110 | two different names equal up to case are similar in both directions |
| Inference.SimilarBothWays | newver.py:110 | similarity in both directions happens only between names equal up to case |
| Inference.ProgressesIff | newver.py:91-92 | the `any(... zip(kw, kw[1:]))` scan is true exactly when some adjacent keyword pair has k_i in the lower-cased role1 and k_i+1 in the lower-cased role2 |
| Inference.CapitalisedNotInLower | newver.py:91-92 | a keyword that starts with a capital letter never occurs in a lower-cased role |
| Inference.CapitalisedNeverProgress | newver.py:86-92 | with capitalised keywords no pair of roles progresses |
| Inference.HierarchyKeywordsNeverProgress | newver.py:86-92 | with the keyword list as written no pair of roles progresses |
| Inference.LowerCaseKeywordsExample | newver.py:90-92 | with lower-case keywords a junior role progresses to a senior one and not to itself |
| Graph.AddsOnlyNewKeepsNoDuplicates | newver.py:97-100 | adding only relationships that are not yet present keeps the relationships free of duplicates |
| Graph.MergeProps | newver.py:66 | merging by key keeps every key, adds the merged one, overwrites the given properties, keeps the other old ones and leaves other nodes alone |
| Graph.LastWriteWins | neo4jImport.py:87-106 | two merges of the same key, the second setting at least the names of the first, equal the second merge alone |
| Graph.MergeAllKeys | neo4jImport.py:29-35 | after a sequence of merges the keys are the old keys plus the merged ones |
| Graph.MergeAllUntouched | neo4jImport.py:29-35 | a key never merged keeps its old properties |
| Graph.MergeAllLastWins | neo4jImport.py:29-35 | a merged key holds its old properties overwritten by its last merge's properties |
| Graph.MergeEdgeInto | neo4jImport.py:159 | relationship MERGE: the relationship is present afterwards, nothing else is added, and nothing is duplicated |
| Graph.MergeEdgeTwice | neo4jImport.py:159 | merging the same relationship twice equals merging it once, and it then occurs exactly once |
| Graph.Enumerate | newver.py:107 | `list(skills_set)`: a sequence without repeats holding exactly the set's elements |
| Graph.Store.MergeJob | newver.py:66 | the Job table becomes the merge of the row's properties under its job_id; nothing else changes |
| Graph.Store.MergeSkill | newver.py:50-51 | the Skill table gains the name; nothing else changes |
| Graph.Store.MergeResponsibility | newver.py:76-77 | the Responsibility table gains the description; nothing else changes |
| Graph.Store.MergeCompany | populate_neo4j.py:81-82 | the Company table becomes the merge of the properties under the name; nothing else changes |
| Graph.Store.MergeLocation | neo4jImport.py:166-171 | the Location table gains the four-property key; nothing else changes |
| Graph.Store.MergeDataset | neo4jImport.py:79-80 | the marker for the path is set to the given time; nothing else changes |
| Graph.Store.FindNode | newver.py:70 | `matcher.match(...).first()` is found exactly when the node exists |
| Graph.Store.FindEdge | newver.py:98 | the existence check is true exactly when the relationship is present |
| Graph.Store.MergeEdge | newver.py:72 | relationship MERGE between existing nodes; the node tables are unchanged |
| Graph.Store.CreateEdge | newver.py:100 | relationship CREATE appends unconditionally; the node tables are unchanged |
| Pipeline.Preprocess | newver.py:36-38 | the cleaned lists are non-empty, stripped, separator-free pieces; the role stays a string exactly when it was one and is then standardised; the other columns are untouched |
| Pipeline.AllSkillsMembers | newver.py:45-47 | a name is in the skill set exactly when some row lists it |
| Pipeline.CollectSkills | newver.py:45-47 | the loop builds exactly the union of the rows' skill lists |
| Pipeline.MergeSkills | newver.py:49-51 | every collected skill gets a Skill node; nothing else changes |
| Pipeline.AllResponsibilitiesMembers | newver.py:75-77 | a phrase has a Responsibility node exactly when some row lists it, so identical phrases share one node |
| Pipeline.CompanyNamesMembers | populate_neo4j.py:81-82 | a company has a node exactly when some row names it |
| Pipeline.DistinctRoles | newver.py:85 | `dropna().unique()`: no repeats, and a role is listed exactly when some row has it as a string |
| Pipeline.DistinctRolesFirstAppearance | newver.py:85 | a role is appended at its first appearance, so the roles come in order of first appearance |
| Pipeline.CellValue | newver.py:58-65 | a string cell is stored as that string; a missing cell as NaN |
| Pipeline.JobProperties | newver.py:58-65 | besides its job_id key, a Job node has exactly title, role, company and location, with the row's role and company |
| Pipeline.JobsAfterLastRowWins | newver.py:56-66 | after the row loop a job_id holds its old properties overwritten by its last row's |
| Pipeline.JobsAfterKeys | newver.py:56-66 | after the row loop there is a Job for exactly the old ids and the rows' ids, and untouched jobs keep their properties |
| Pipeline.LinkSkills | newver.py:69-72 | REQUIRES_SKILL from the job to every listed skill that has a node, no duplicate, and nothing else added |
| Pipeline.LinkResponsibilities | newver.py:75-78 | every phrase gets a Responsibility node and a HAS_RESPONSIBILITY from the job, no duplicate, nothing else added |
| Pipeline.ProcessRow | populate_neo4j.py:58-83 | the row's Job is merged; it is linked to its skills and phrases and, with the Company step, by POSTED_BY to its company; every added relationship is one of these and none is added twice |
| Pipeline.ProcessRows | newver.py:56-81 | the Job table is the fold of the rows; the Responsibility and Company tables gain exactly the rows' phrases and companies; every row is linked; only row relationships are added, none twice |
| Pipeline.JobsWithRole | newver.py:93-94 | `matcher.match("Job", role=...)`: exactly the jobs whose role property is that role, without repeats |
| Pipeline.LinkJobFrom | newver.py:95-100 | LEADS_TO from the job to every target job, created only when absent, and nothing else |
| Pipeline.LinkJobs | newver.py:95-100 | LEADS_TO from every source job to every target job, never duplicated, and nothing else |
| Pipeline.LeadsToFrom | newver.py:89-100 | for one role1, every job pair of a progressing role pair is linked and only such pairs |
| Pipeline.LeadsToPass | newver.py:85-101 | after the pass every job of a role that progresses to another role leads to every job of that role, no relationship is duplicated, and every added relationship is such a pair |
| Pipeline.LeadsToPassAddsNothing | newver.py:86-100 | with the keyword list as written the pass leaves the relationships unchanged |
| Pipeline.SimilarFrom | newver.py:109-116 | for one skill1, IS_SIMILAR_TO to every listed similar skill with a node, created only when absent |
| Pipeline.SimilarityPass | newver.py:107-116 | afterwards every ordered pair of similar listed skills with nodes is linked, nothing is duplicated, and every added relationship is such a pair |
| Pipeline.SimilarCollectedLinked | newver.py:107-116 | over an enumeration of the skill set, every ordered pair of similar collected skills is linked |
| Pipeline.LinkSimilarSkills | newver.py:105-116 | over `list(skills_set)` in any order: every ordered pair of similar skills of the set is linked by IS_SIMILAR_TO, nothing is duplicated, only such pairs are added, and the node tables are unchanged |
| Pipeline.EverySkillLinked | newver.py:69-72 | once every collected skill has a node, each row has REQUIRES_SKILL to each of its cleaned skills (the lookup never fails) |
| Pipeline.LoadRows | newver.py:45-81 | skills, jobs, phrases (and companies) are exactly those of the rows, every row is linked, and only row relationships are added |
| Pipeline.PopulationFinish | newver.py:45-116 | after the row loop and the similarity pass: every row keeps its relationships, each row has REQUIRES_SKILL to each of its skills, nothing is duplicated, and every added relationship is a row relationship or an IS_SIMILAR_TO between similar collected skills, never a LEADS_TO |
| Pipeline.RunNewver | newver.py:35-118 | the whole script: node tables as functions of the table, every row skill and phrase linked, all similar skill pairs linked, no LEADS_TO added, nothing duplicated, only population relationships added |
| Pipeline.RunPopulate | populate_neo4j.py:35-101 | the whole script: as newver.py without LEADS_TO, plus a Company per named company and POSTED_BY from each row's job to its company |
| Importer.JobProperties | neo4jImport.py:85-128 | the Job SET lists exactly the nineteen properties, with latitude and longitude through `toFloat` |
| Importer.CompanyProperties | neo4jImport.py:131-152 | the Company SET lists exactly the eight enrichment properties |
| Importer.CompanyPropertiesFromProfile | neo4jImport.py:143-152 | each enrichment property is the profile's value under its key, or null when the key is absent |
| Importer.ParseProfile | neo4jImport.py:31-33 | the profile text (`{}` when absent) is repaired; when the repaired text is not blank, does not strip to `{}` and decodes, the profile is the decoded object, and a non-empty profile is always what the decoder returned |
| Importer.ProfileAbsent | neo4jImport.py:31-33 | a record without a Company Profile key gives the empty profile |
| Importer.EmptyObjectUnchanged | neo4jImport.py:31 | the default text `{}` is left unchanged by the repair and by stripping |
| Importer.IsDataImported | neo4jImport.py:68-74 | true exactly when a Dataset marker exists for the path |
| Importer.MarkDataAsImported | neo4jImport.py:77-82 | the marker for the path is merged with the given time; nothing else changes |
| Importer.CreateJob | neo4jImport.py:85-128 | the Job is merged by job_id with the listed properties overwritten; nothing else changes |
| Importer.CreateCompany | neo4jImport.py:131-152 | the Company is merged by name with the enrichment properties overwritten; nothing else changes |
| Importer.LinkJobToCompany | neo4jImport.py:155-161 | POSTED_BY is merged exactly when both the Job and the Company exist; otherwise nothing changes |
| Importer.CreateLocation | neo4jImport.py:164-177 | the Location keyed by city, country and both coordinates is merged; nothing else changes |
| Importer.LinkJobToLocation | neo4jImport.py:180-186 | LOCATED_IN from the job to every Location with the record's city and country, whatever its coordinates; never duplicated; nothing when the job is missing |
| Importer.LinkRow | neo4jImport.py:37-39 | for a record whose Job and Company exist: POSTED_BY to its company, its Location merged, LOCATED_IN to every Location of its city and country; only these are added, none twice; the Job and Company tables are unchanged |
| Importer.ImportRow | neo4jImport.py:31-39 | one record: Job, Company and Location tables updated as above, the record's relationships present, only those added, none twice |
| Importer.JobsAfterLastRowWins | neo4jImport.py:29-35 | after the record loop a job_id holds its old properties overwritten by its last record's |
| Importer.CompaniesAfterLastRowWins | neo4jImport.py:29-36 | after the record loop a company holds its old properties overwritten by those from its last record's profile |
| Importer.JobsAfterKeys | neo4jImport.py:29-35 | after the record loop there is a Job for exactly the old ids and the records' ids, and untouched jobs keep their properties |
| Importer.ImportRows | neo4jImport.py:29-39 | the tables are the folds of the records, every record is linked, only record relationships are added, none twice |
| Importer.ImportJobs | neo4jImport.py:17-39 | with a marker for the path nothing at all changes; otherwise the marker is set and the records are imported as above |

## Left out

- Database connections, the driver and session lifecycle (`close`), file and CSV reading, and pandas loading are not modelled. The rows are a sequence of records given to the methods.
- Concurrency, transactions, rollback and failures of the database are not modelled: every write succeeds, in order.
- Progress and report output (`print`) is not modelled. This includes the condition `i == len(skills_list)` at newver.py:117, which never holds.
- The top-companies query of populate_neo4j.py:104-116 is not modelled; it reads the graph and prints.
- `json.loads` is a decoder parameter, a partial function. The modelled guards are the blank and `{}` checks and the fallback to `{}`. A decoded value that is not an object is not modelled.
- Importer.ToFloat: Cypher's `toFloat` is kept as an opaque value determined by the field's text. That it yields null for non-numeric text, and that two spellings of one number are equal, is not modelled.
- Importer.CompanyProperties: Cypher's `SET c.sector = null` (neo4jImport.py:133-152) removes the property, while the model stores the value `Null` under the key. Reads of a property agree, but the set of keys of a Company node does not.
- The time `datetime()` stored on the Dataset marker is a parameter `now`.
- Character handling is ASCII only: whitespace, lower-casing and the letter and digit classes do not cover other Unicode characters.
- A missing Job Id or Company cell (pandas NaN) is not modelled. Keys are strings.
- Every record is assumed to have all the CSV columns the importer reads, except Company Profile, whose absence is modelled.
- Set iteration order is not modelled. The list of skills is any enumeration of the set, and the proved properties hold for every order.
- Text.AsideRemovedBeforeSplit: the concrete example "Python (advanced), SQL" is covered by the general statement (a = "Python ", b = "advanced", c = ", SQL"). The final splitting of that literal is not computed.
- app.py, static/scripts/charts.js, mock_users.py, data_clean.py, mongodb_UserImport.py and savedimport.py are not part of this model.
