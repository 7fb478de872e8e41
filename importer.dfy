/**
 * The marker-gated importer of neo4jImport.py: `import_jobs` and the
 * transaction functions it runs. Each Cypher statement is modelled from what
 * its text says: MERGE on a key then SET overwrites the listed properties,
 * MATCH finds existing nodes only, and MERGE of a relationship adds it unless
 * it exists.
 */
module Importer {
  import opened Options
  import opened Text
  import opened Graph
  import opened JsonRepair

  /** A record of `csv.DictReader`: the fields the importer reads, as text. */
  datatype CsvRow = CsvRow(
    jobId: JobId, jobTitle: string, role: string, experience: string, qualifications: string,
    salaryRange: string, location: string, country: string, latitude: string, longitude: string,
    workType: string, companySize: string, jobPostingDate: string, preference: string,
    contactPerson: string, contact: string, jobPortal: string, jobDescription: string,
    benefits: string, responsibilities: string,
    company: string,
    /** The Company Profile field, None when the record has no such key. */
    companyProfile: Option<string>)

  /** A decoded company profile: the JSON object's members. */
  type Profile = map<string, Value>

  /** The JSON decoder, a partial function. */
  type Decoder = string -> Option<Profile>

  // ---------------------------------------------------------------------------
  // Node properties

  /** The properties `create_job` SETs. */
  const JobPropertyNames: set<string> := {
    "job_title", "role", "experience", "qualifications", "salary_range", "location", "country",
    "latitude", "longitude", "work_type", "company_size", "job_posting_date", "preference",
    "contact_person", "contact", "job_portal", "job_description", "benefits", "responsibilities"}

  /** `toFloat` of a field, kept as an opaque value determined by the field's text. */
  function ToFloat(raw: string): Value
  {
    Float(raw)
  }

  /** The value `create_job` SETs for property `name`: the field as text, the coordinates through `toFloat`. */
  function JobField(r: CsvRow, name: string): Value
  {
    if name == "latitude" then ToFloat(r.latitude)
    else if name == "longitude" then ToFloat(r.longitude)
    else if name == "job_title" then String(r.jobTitle)
    else if name == "role" then String(r.role)
    else if name == "experience" then String(r.experience)
    else if name == "qualifications" then String(r.qualifications)
    else if name == "salary_range" then String(r.salaryRange)
    else if name == "location" then String(r.location)
    else if name == "country" then String(r.country)
    else if name == "work_type" then String(r.workType)
    else if name == "company_size" then String(r.companySize)
    else if name == "job_posting_date" then String(r.jobPostingDate)
    else if name == "preference" then String(r.preference)
    else if name == "contact_person" then String(r.contactPerson)
    else if name == "contact" then String(r.contact)
    else if name == "job_portal" then String(r.jobPortal)
    else if name == "job_description" then String(r.jobDescription)
    else if name == "benefits" then String(r.benefits)
    else String(r.responsibilities)
  }

  /** The SET list of `create_job`: the nineteen properties, each from its field. */
  function JobProperties(r: CsvRow): (p: Props)
    ensures p.Keys == JobPropertyNames
    ensures p["latitude"] == ToFloat(r.latitude) && p["longitude"] == ToFloat(r.longitude)
  {
    map name | name in JobPropertyNames :: JobField(r, name)
  }

  /** Each company property and the profile key it is read from. */
  const ProfileFields: seq<(string, string)> := [
    ("sector", "Sector"), ("industry", "Industry"), ("city", "City"), ("state", "State"),
    ("zipcode", "Zip"), ("website", "Website"), ("ticker", "Ticker"), ("ceo", "CEO")]

  /** `company_profile.get(key, None)`. */
  function Lookup(profile: Profile, key: string): Value
  {
    if key in profile then profile[key] else Null
  }

  /** The properties `create_company` SETs. */
  const CompanyPropertyNames: set<string> := {"sector", "industry", "city", "state", "zipcode", "website", "ticker", "ceo"}

  /** The SET list of `create_company`. */
  function CompanyProperties(profile: Profile): (p: Props)
    ensures p.Keys == CompanyPropertyNames
  {
    map[
      "sector" := Lookup(profile, "Sector"), "industry" := Lookup(profile, "Industry"),
      "city" := Lookup(profile, "City"), "state" := Lookup(profile, "State"),
      "zipcode" := Lookup(profile, "Zip"), "website" := Lookup(profile, "Website"),
      "ticker" := Lookup(profile, "Ticker"), "ceo" := Lookup(profile, "CEO")]
  }

  /**
   * Each of the eight company properties takes the profile's value for its
   * key, or null when the profile lacks the key.
   */
  lemma CompanyPropertiesFromProfile(profile: Profile)
    ensures forall i :: 0 <= i < |ProfileFields| ==>
      ProfileFields[i].0 in CompanyProperties(profile) &&
      CompanyProperties(profile)[ProfileFields[i].0] == (if ProfileFields[i].1 in profile then profile[ProfileFields[i].1] else Null)
  {
    var p := CompanyProperties(profile);
    forall i | 0 <= i < |ProfileFields|
      ensures ProfileFields[i].0 in p && p[ProfileFields[i].0] == Lookup(profile, ProfileFields[i].1)
    {
      if i == 0 {} else if i == 1 {} else if i == 2 {} else if i == 3 {}
      else if i == 4 {} else if i == 5 {} else if i == 6 {} else {}
    }
  }

  /**
   * Lines 31-33: the profile text (`"{}"` when the key is absent) is repaired
   * and then parsed by the guarded decoder; when the repaired text is not
   * blank, does not strip to `{}` and decodes, the profile is the decoded
   * object, and a non-empty profile is always what the decoder returned.
   */
  function ParseProfile(r: CsvRow, decode: Decoder): (profile: Profile)
    ensures profile != map[] ==> decode(CleanMidSentenceQuotes(r.companyProfile.GetOr("{}"))) == Some(profile)
    ensures var text := CleanMidSentenceQuotes(r.companyProfile.GetOr("{}"));
      !IsBlank(text) && Strip(text) != "{}" && decode(text).Some? ==> profile == decode(text).value
  {
    SafeParseJson(CleanMidSentenceQuotes(r.companyProfile.GetOr("{}")), decode)
  }

  /** A record without the Company Profile key gets the empty profile, whatever the decoder. */
  lemma ProfileAbsent(r: CsvRow, decode: Decoder)
    requires r.companyProfile.None?
    ensures ParseProfile(r, decode) == map[]
  {
    EmptyObjectUnchanged(r.companyProfile.GetOr("{}"));
  }

  lemma EmptyObjectUnchanged(text: string)
    requires text == "{}"
    ensures CleanMidSentenceQuotes(text) == text && Strip(text) == text
  {
    NoQuoteUnchanged(text);
    assert IsStripped(text);
    StrippedIsFixed(text);
  }

  /** The Location a record creates: its city, country and both coordinates. */
  function RowLocation(r: CsvRow): Location
  {
    Location(r.location, r.country, ToFloat(r.latitude), ToFloat(r.longitude))
  }

  /** The MATCH of `link_job_to_location`: city and country only, whatever the coordinates. */
  predicate SamePlace(r: CsvRow, loc: Location)
  {
    loc.city == r.location && loc.country == r.country
  }

  // ---------------------------------------------------------------------------
  // The transaction functions

  /** is_data_imported: whether a Dataset node for the path exists. */
  method IsDataImported(store: Store, path: string) returns (imported: bool)
    ensures imported <==> path in store.datasets
  {
    imported := path in store.datasets;
  }

  /** mark_data_as_imported: MERGE the marker and SET its time; a path never has two markers. */
  method MarkDataAsImported(store: Store, path: string, now: Value)
    requires store.Valid()
    modifies store
    ensures store.Valid()
    ensures store.datasets == old(store.datasets)[path := now]
    ensures store.jobs == old(store.jobs) && store.skills == old(store.skills)
    ensures store.responsibilities == old(store.responsibilities) && store.companies == old(store.companies)
    ensures store.locations == old(store.locations) && store.edges == old(store.edges)
  {
    store.MergeDataset(path, now);
  }

  /** create_job: MERGE the Job by id and overwrite the listed properties. */
  method CreateJob(store: Store, r: CsvRow)
    requires store.Valid()
    modifies store
    ensures store.Valid()
    ensures store.jobs == MergeProps(old(store.jobs), r.jobId, JobProperties(r))
    ensures store.skills == old(store.skills) && store.responsibilities == old(store.responsibilities)
    ensures store.companies == old(store.companies) && store.locations == old(store.locations)
    ensures store.datasets == old(store.datasets) && store.edges == old(store.edges)
  {
    store.MergeJob(r.jobId, JobProperties(r));
  }

  /** create_company: MERGE the Company by name and overwrite its eight profile properties. */
  method CreateCompany(store: Store, r: CsvRow, profile: Profile)
    requires store.Valid()
    modifies store
    ensures store.Valid()
    ensures store.companies == MergeProps(old(store.companies), r.company, CompanyProperties(profile))
    ensures store.jobs == old(store.jobs) && store.skills == old(store.skills)
    ensures store.responsibilities == old(store.responsibilities) && store.locations == old(store.locations)
    ensures store.datasets == old(store.datasets) && store.edges == old(store.edges)
  {
    store.MergeCompany(r.company, CompanyProperties(profile));
  }

  /** link_job_to_company: when both the Job and the Company exist, MERGE one POSTED_BY between them. */
  method LinkJobToCompany(store: Store, r: CsvRow)
    requires store.Valid()
    modifies store
    ensures store.Valid() && store.NodesUnchanged()
    ensures var e := Edge(PostedBy, JobNode(r.jobId), CompanyNode(r.company));
      store.edges == if r.jobId in store.jobs && r.company in store.companies then MergeEdgeInto(old(store.edges), e)
                     else old(store.edges)
  {
    var job := store.FindNode(JobNode(r.jobId));
    var company := store.FindNode(CompanyNode(r.company));
    if job && company {
      store.MergeEdge(Edge(PostedBy, JobNode(r.jobId), CompanyNode(r.company)));
    }
  }

  /** create_location: MERGE the Location on all four properties. */
  method CreateLocation(store: Store, r: CsvRow)
    requires store.Valid()
    modifies store
    ensures store.Valid()
    ensures store.locations == old(store.locations) + {RowLocation(r)}
    ensures store.jobs == old(store.jobs) && store.skills == old(store.skills)
    ensures store.responsibilities == old(store.responsibilities) && store.companies == old(store.companies)
    ensures store.datasets == old(store.datasets) && store.edges == old(store.edges)
  {
    store.MergeLocation(RowLocation(r));
  }

  /** A LOCATED_IN from the record's job to a Location of `locations` with the record's city and country. */
  predicate PlaceEdge(r: CsvRow, locations: set<Location>, e: Edge)
  {
    && e.rel == LocatedIn && e.source == JobNode(r.jobId)
    && e.target.LocationNode? && e.target.location in locations
    && SamePlace(r, e.target.location)
  }

  /** The loop of link_job_to_location after the first i places: each linked, and only such links added. */
  ghost predicate PlacesLinked(r: CsvRow, places: seq<Location>, i: nat, locations: set<Location>, edges: seq<Edge>, edgesNow: seq<Edge>)
    requires i <= |places|
  {
    && AddsOnlyNew(edges, edgesNow)
    && (forall j :: 0 <= j < i ==> Edge(LocatedIn, JobNode(r.jobId), LocationNode(places[j])) in edgesNow)
    && (forall k :: |edges| <= k < |edgesNow| ==> PlaceEdge(r, locations, edgesNow[k]))
  }

  /** Merging the LOCATED_IN to place i extends PlacesLinked from i to i + 1. */
  lemma PlacesStep(r: CsvRow, places: seq<Location>, i: nat, locations: set<Location>, edges: seq<Edge>, before: seq<Edge>, after: seq<Edge>)
    requires i < |places| && places[i] in locations && SamePlace(r, places[i])
    requires PlacesLinked(r, places, i, locations, edges, before)
    requires after == MergeEdgeInto(before, Edge(LocatedIn, JobNode(r.jobId), LocationNode(places[i])))
    ensures PlacesLinked(r, places, i + 1, locations, edges, after)
  {
    AddsOnlyNewTransitive(edges, before, after);
    AddsOnlyNewPrefix(before, after);
    forall k | |edges| <= k < |after| ensures PlaceEdge(r, locations, after[k]) {
      if k < |before| {
        assert after[k] == before[k];
      }
    }
  }

  /**
   * link_job_to_location: when the Job exists, MERGE a LOCATED_IN to every
   * Location with the record's city and country, whatever its coordinates.
   */
  method LinkJobToLocation(store: Store, r: CsvRow)
    requires store.Valid()
    modifies store
    ensures store.Valid() && store.NodesUnchanged()
    ensures AddsOnlyNew(old(store.edges), store.edges)
    ensures r.jobId !in store.jobs ==> store.edges == old(store.edges)
    ensures r.jobId in store.jobs ==> forall loc :: loc in store.locations && SamePlace(r, loc) ==>
      Edge(LocatedIn, JobNode(r.jobId), LocationNode(loc)) in store.edges
    ensures forall k :: |old(store.edges)| <= k < |store.edges| ==>
      && store.edges[k].rel == LocatedIn && store.edges[k].source == JobNode(r.jobId)
      && store.edges[k].target.LocationNode? && store.edges[k].target.location in store.locations
      && SamePlace(r, store.edges[k].target.location)
  {
    var job := store.FindNode(JobNode(r.jobId));
    if job {
      var places := Enumerate(set loc | loc in store.locations && SamePlace(r, loc));
      assert AddsOnlyNew(store.edges, store.edges);
      for i := 0 to |places|
        invariant store.Valid() && store.NodesUnchanged()
        invariant PlacesLinked(r, places, i, store.locations, old(store.edges), store.edges)
      {
        assert places[i] in places;
        ghost var before := store.edges;
        store.MergeEdge(Edge(LocatedIn, JobNode(r.jobId), LocationNode(places[i])));
        PlacesStep(r, places, i, store.locations, old(store.edges), before, store.edges);
      }
      assert forall loc :: loc in store.locations && SamePlace(r, loc) ==> loc in places;
    }
  }

  // ---------------------------------------------------------------------------
  // One record

  /** The relationships one record guarantees, given the Locations present when it was processed. */
  predicate RowLinked(r: CsvRow, locations: set<Location>, edges: seq<Edge>)
  {
    && Edge(PostedBy, JobNode(r.jobId), CompanyNode(r.company)) in edges
    && forall loc :: loc in locations && SamePlace(r, loc) ==> Edge(LocatedIn, JobNode(r.jobId), LocationNode(loc)) in edges
  }

  /** A relationship one record may add, given the Locations present when it was processed. */
  predicate RowEdge(r: CsvRow, locations: set<Location>, e: Edge)
  {
    || e == Edge(PostedBy, JobNode(r.jobId), CompanyNode(r.company))
    || (&& e.rel == LocatedIn && e.source == JobNode(r.jobId) && e.target.LocationNode?
        && e.target.location in locations && SamePlace(r, e.target.location))
  }

  /** Lines 35-39 for one record whose Job and Company exist: its relationships and its Location. */
  method LinkRow(store: Store, r: CsvRow)
    requires store.Valid() && r.jobId in store.jobs && r.company in store.companies
    modifies store
    ensures store.Valid()
    ensures store.locations == old(store.locations) + {RowLocation(r)}
    ensures store.jobs == old(store.jobs) && store.companies == old(store.companies)
    ensures store.skills == old(store.skills) && store.responsibilities == old(store.responsibilities)
    ensures store.datasets == old(store.datasets)
    ensures AddsOnlyNew(old(store.edges), store.edges)
    ensures RowLinked(r, store.locations, store.edges)
    ensures forall k :: |old(store.edges)| <= k < |store.edges| ==> RowEdge(r, store.locations, store.edges[k])
  {
    ghost var e0 := store.edges;
    LinkJobToCompany(store, r);
    ghost var e1 := store.edges;
    assert Edge(PostedBy, JobNode(r.jobId), CompanyNode(r.company)) in e1;
    CreateLocation(store, r);
    LinkJobToLocation(store, r);
    AddsOnlyNewTransitive(e0, e1, store.edges);
    AddsOnlyNewPrefix(e1, store.edges);
  }

  /** Lines 31-39 for one record: parse the profile, then run the five transaction functions in order. */
  method ImportRow(store: Store, r: CsvRow, decode: Decoder)
    requires store.Valid()
    modifies store
    ensures store.Valid()
    ensures store.jobs == MergeProps(old(store.jobs), r.jobId, JobProperties(r))
    ensures store.companies == MergeProps(old(store.companies), r.company, CompanyProperties(ParseProfile(r, decode)))
    ensures store.locations == old(store.locations) + {RowLocation(r)}
    ensures store.skills == old(store.skills) && store.responsibilities == old(store.responsibilities)
    ensures store.datasets == old(store.datasets)
    ensures AddsOnlyNew(old(store.edges), store.edges)
    ensures RowLinked(r, store.locations, store.edges)
    ensures forall k :: |old(store.edges)| <= k < |store.edges| ==> RowEdge(r, store.locations, store.edges[k])
  {
    var profile := ParseProfile(r, decode);
    CreateJob(store, r);
    CreateCompany(store, r, profile);
    LinkRow(store, r);
  }

  // ---------------------------------------------------------------------------
  // The whole file

  function JobIds(rows: seq<CsvRow>): seq<JobId>
  {
    seq(|rows|, i requires 0 <= i < |rows| => rows[i].jobId)
  }

  function JobPropertySeq(rows: seq<CsvRow>): seq<Props>
  {
    seq(|rows|, i requires 0 <= i < |rows| => JobProperties(rows[i]))
  }

  function CompanyKeys(rows: seq<CsvRow>): seq<string>
  {
    seq(|rows|, i requires 0 <= i < |rows| => rows[i].company)
  }

  function CompanyPropertySeq(rows: seq<CsvRow>, decode: Decoder): seq<Props>
  {
    seq(|rows|, i requires 0 <= i < |rows| => CompanyProperties(ParseProfile(rows[i], decode)))
  }

  /** The Job table after the records' create_job, in order. */
  function JobsAfter(jobs: map<JobId, Props>, rows: seq<CsvRow>): map<JobId, Props>
  {
    MergeAll(jobs, JobIds(rows), JobPropertySeq(rows))
  }

  /** The Company table after the records' create_company, in order. */
  function CompaniesAfter(companies: map<string, Props>, rows: seq<CsvRow>, decode: Decoder): map<string, Props>
  {
    MergeAll(companies, CompanyKeys(rows), CompanyPropertySeq(rows, decode))
  }

  /** The Locations the records create. */
  function RowLocations(rows: seq<CsvRow>): set<Location>
    decreases |rows|
  {
    if rows == [] then {} else RowLocations(rows[..|rows| - 1]) + {RowLocation(rows[|rows| - 1])}
  }

  lemma JobsStep(jobs: map<JobId, Props>, rows: seq<CsvRow>, n: nat)
    requires n < |rows|
    ensures JobsAfter(jobs, rows[..n + 1]) == MergeProps(JobsAfter(jobs, rows[..n]), rows[n].jobId, JobProperties(rows[n]))
  {
    var prefix := rows[..n + 1];
    assert JobIds(prefix)[..n] == JobIds(rows[..n]);
    assert JobPropertySeq(prefix)[..n] == JobPropertySeq(rows[..n]);
  }

  lemma CompaniesStep(companies: map<string, Props>, rows: seq<CsvRow>, decode: Decoder, n: nat)
    requires n < |rows|
    ensures CompaniesAfter(companies, rows[..n + 1], decode) ==
      MergeProps(CompaniesAfter(companies, rows[..n], decode), rows[n].company, CompanyProperties(ParseProfile(rows[n], decode)))
  {
    var prefix := rows[..n + 1];
    assert CompanyKeys(prefix)[..n] == CompanyKeys(rows[..n]);
    assert CompanyPropertySeq(prefix, decode)[..n] == CompanyPropertySeq(rows[..n], decode);
  }

  lemma LocationsStep(rows: seq<CsvRow>, n: nat)
    requires n < |rows|
    ensures RowLocations(rows[..n + 1]) == RowLocations(rows[..n]) + {RowLocation(rows[n])}
  {
    assert rows[..n + 1][..n] == rows[..n];
  }

  /**
   * Last write wins on Job: a job id in several records ends up with every
   * listed property from its last record, and keeps any other property it had.
   */
  lemma JobsAfterLastRowWins(jobs: map<JobId, Props>, rows: seq<CsvRow>, i: nat)
    requires i < |rows|
    requires forall j :: i < j < |rows| ==> rows[j].jobId != rows[i].jobId
    ensures rows[i].jobId in JobsAfter(jobs, rows)
    ensures JobsAfter(jobs, rows)[rows[i].jobId] == Base(jobs, rows[i].jobId) + JobProperties(rows[i])
  {
    var ids, props := JobIds(rows), JobPropertySeq(rows);
    assert ids[i] == rows[i].jobId;
    assert SameNames(props);
    MergeAllLastWins(jobs, ids, props, rows[i].jobId);
    assert LastIndexOf(ids, rows[i].jobId) == i;
  }

  /**
   * Last write wins on Company: a company named by several records ends up
   * with the eight profile properties of its last record, overwriting those
   * of earlier records even when the last profile lacks a key (null).
   */
  lemma CompaniesAfterLastRowWins(companies: map<string, Props>, rows: seq<CsvRow>, decode: Decoder, i: nat)
    requires i < |rows|
    requires forall j :: i < j < |rows| ==> rows[j].company != rows[i].company
    ensures rows[i].company in CompaniesAfter(companies, rows, decode)
    ensures CompaniesAfter(companies, rows, decode)[rows[i].company] ==
      Base(companies, rows[i].company) + CompanyProperties(ParseProfile(rows[i], decode))
  {
    var names, props := CompanyKeys(rows), CompanyPropertySeq(rows, decode);
    assert names[i] == rows[i].company;
    assert SameNames(props);
    MergeAllLastWins(companies, names, props, rows[i].company);
    assert LastIndexOf(names, rows[i].company) == i;
  }

  /** Exactly the old jobs and the records' job ids are present; a job no record names is unchanged. */
  lemma JobsAfterKeys(jobs: map<JobId, Props>, rows: seq<CsvRow>)
    ensures forall id :: id in JobsAfter(jobs, rows) <==> id in jobs || exists i :: 0 <= i < |rows| && rows[i].jobId == id
    ensures forall id :: id in jobs && (forall i :: 0 <= i < |rows| ==> rows[i].jobId != id) ==>
      JobsAfter(jobs, rows)[id] == jobs[id]
  {
    var ids, props := JobIds(rows), JobPropertySeq(rows);
    MergeAllKeys(jobs, ids, props);
    assert forall id :: id in ids <==> exists i :: 0 <= i < |rows| && rows[i].jobId == id by {
      assert forall i :: 0 <= i < |rows| ==> ids[i] == rows[i].jobId;
    }
    forall id | id in jobs && (forall i :: 0 <= i < |rows| ==> rows[i].jobId != id)
      ensures JobsAfter(jobs, rows)[id] == jobs[id]
    {
      assert id !in ids;
      MergeAllUntouched(jobs, ids, props, id);
    }
  }

  /** Each record has its relationships, to the Locations present after it. */
  ghost predicate RowsLinked(rows: seq<CsvRow>, locations: set<Location>, edges: seq<Edge>)
  {
    forall i :: 0 <= i < |rows| ==> RowLinked(rows[i], locations + RowLocations(rows[..i + 1]), edges)
  }

  /** A relationship that one of the records may add, given the Locations present after it. */
  ghost predicate FromSomeRow(rows: seq<CsvRow>, locations: set<Location>, e: Edge)
  {
    exists i :: 0 <= i < |rows| && RowEdge(rows[i], locations + RowLocations(rows[..i + 1]), e)
  }

  /** Every relationship from position `start` on was added for one of the records. */
  ghost predicate OnlyRowEdges(rows: seq<CsvRow>, locations: set<Location>, start: nat, edges: seq<Edge>)
  {
    forall k :: start <= k < |edges| ==> FromSomeRow(rows, locations, edges[k])
  }

  lemma RowLinkedGrow(r: CsvRow, locations: set<Location>, edges: seq<Edge>, more: seq<Edge>)
    requires RowLinked(r, locations, edges)
    requires forall e :: e in edges ==> e in more
    ensures RowLinked(r, locations, more)
  {
  }

  /** One more record: the relationship facts extend from rows[..n] to rows[..n + 1]. */
  lemma RowsStep(rows: seq<CsvRow>, n: nat, locations: set<Location>, start: nat, before: seq<Edge>, after: seq<Edge>)
    requires n < |rows| && start <= |before| && AddsOnlyNew(before, after)
    requires RowsLinked(rows[..n], locations, before)
    requires OnlyRowEdges(rows[..n], locations, start, before)
    requires RowLinked(rows[n], locations + RowLocations(rows[..n + 1]), after)
    requires forall k :: |before| <= k < |after| ==> RowEdge(rows[n], locations + RowLocations(rows[..n + 1]), after[k])
    ensures RowsLinked(rows[..n + 1], locations, after)
    ensures OnlyRowEdges(rows[..n + 1], locations, start, after)
  {
    AddsOnlyNewPrefix(before, after);
    RowsLinkedStep(rows[..n], rows[..n + 1], locations, before, after);
    OnlyRowEdgesStep(rows[..n], rows[..n + 1], locations, start, before, after);
  }

  /** Records already linked stay linked when a record is appended and relationships are added. */
  lemma RowsLinkedStep(done: seq<CsvRow>, prefix: seq<CsvRow>, locations: set<Location>, before: seq<Edge>, after: seq<Edge>)
    requires |prefix| == |done| + 1 && prefix[..|done|] == done
    requires RowsLinked(done, locations, before)
    requires forall e :: e in before ==> e in after
    requires RowLinked(prefix[|done|], locations + RowLocations(prefix), after)
    ensures RowsLinked(prefix, locations, after)
  {
    forall i | 0 <= i < |prefix| ensures RowLinked(prefix[i], locations + RowLocations(prefix[..i + 1]), after) {
      if i < |done| {
        assert prefix[i] == done[i];
        assert prefix[..i + 1] == done[..i + 1];
        RowLinkedGrow(done[i], locations + RowLocations(done[..i + 1]), before, after);
      } else {
        assert prefix[..i + 1] == prefix;
      }
    }
  }

  /** A relationship one of the records may add stays so when a record is appended. */
  lemma FromSomeRowGrow(done: seq<CsvRow>, prefix: seq<CsvRow>, locations: set<Location>, e: Edge)
    requires |done| < |prefix| && prefix[..|done|] == done
    requires FromSomeRow(done, locations, e)
    ensures FromSomeRow(prefix, locations, e)
  {
    var i :| 0 <= i < |done| && RowEdge(done[i], locations + RowLocations(done[..i + 1]), e);
    assert prefix[i] == done[i];
    assert prefix[..i + 1] == done[..i + 1];
  }

  /** A relationship the last record may add is one that one of the records may add. */
  lemma FromLastRow(prefix: seq<CsvRow>, locations: set<Location>, e: Edge)
    requires prefix != [] && RowEdge(prefix[|prefix| - 1], locations + RowLocations(prefix), e)
    ensures FromSomeRow(prefix, locations, e)
  {
    assert prefix[..|prefix| - 1 + 1] == prefix;
  }

  /** Relationships added for an appended record keep OnlyRowEdges. */
  lemma OnlyRowEdgesStep(done: seq<CsvRow>, prefix: seq<CsvRow>, locations: set<Location>, start: nat, before: seq<Edge>, after: seq<Edge>)
    requires |prefix| == |done| + 1 && prefix[..|done|] == done
    requires start <= |before| <= |after| && forall k :: 0 <= k < |before| ==> after[k] == before[k]
    requires OnlyRowEdges(done, locations, start, before)
    requires forall k :: |before| <= k < |after| ==> RowEdge(prefix[|done|], locations + RowLocations(prefix), after[k])
    ensures OnlyRowEdges(prefix, locations, start, after)
  {
    forall k | start <= k < |after| ensures FromSomeRow(prefix, locations, after[k]) {
      if k < |before| {
        assert after[k] == before[k];
        FromSomeRowGrow(done, prefix, locations, before[k]);
      } else {
        FromLastRow(prefix, locations, after[k]);
      }
    }
  }

  /** The node tables after the first n records, from tables that started as `jobs`, `companies` and `locations`. */
  ghost predicate TablesUpTo(rows: seq<CsvRow>, n: nat, decode: Decoder,
      jobs: map<JobId, Props>, companies: map<string, Props>, locations: set<Location>,
      jobsNow: map<JobId, Props>, companiesNow: map<string, Props>, locationsNow: set<Location>)
    requires n <= |rows|
  {
    && jobsNow == JobsAfter(jobs, rows[..n])
    && companiesNow == CompaniesAfter(companies, rows[..n], decode)
    && locationsNow == locations + RowLocations(rows[..n])
  }

  /** The relationships after the first n records, from `edges` and the Locations `locations`. */
  ghost predicate EdgesUpTo(rows: seq<CsvRow>, n: nat, locations: set<Location>, edges: seq<Edge>, edgesNow: seq<Edge>)
    requires n <= |rows|
  {
    && AddsOnlyNew(edges, edgesNow)
    && RowsLinked(rows[..n], locations, edgesNow)
    && OnlyRowEdges(rows[..n], locations, |edges|, edgesNow)
  }

  /** Importing record n, as ImportRow states it, extends TablesUpTo from n to n + 1. */
  lemma TablesStep(rows: seq<CsvRow>, n: nat, decode: Decoder,
      jobs: map<JobId, Props>, companies: map<string, Props>, locations: set<Location>,
      jobs0: map<JobId, Props>, companies0: map<string, Props>, locations0: set<Location>,
      jobs1: map<JobId, Props>, companies1: map<string, Props>, locations1: set<Location>)
    requires n < |rows|
    requires TablesUpTo(rows, n, decode, jobs, companies, locations, jobs0, companies0, locations0)
    requires jobs1 == MergeProps(jobs0, rows[n].jobId, JobProperties(rows[n]))
    requires companies1 == MergeProps(companies0, rows[n].company, CompanyProperties(ParseProfile(rows[n], decode)))
    requires locations1 == locations0 + {RowLocation(rows[n])}
    ensures TablesUpTo(rows, n + 1, decode, jobs, companies, locations, jobs1, companies1, locations1)
  {
    JobsValueStep(jobs, rows, n, jobs0, jobs1);
    CompaniesValueStep(companies, rows, decode, n, companies0, companies1);
    LocationsStep(rows, n);
  }

  lemma JobsValueStep(jobs: map<JobId, Props>, rows: seq<CsvRow>, n: nat, before: map<JobId, Props>, after: map<JobId, Props>)
    requires n < |rows| && before == JobsAfter(jobs, rows[..n])
    requires after == MergeProps(before, rows[n].jobId, JobProperties(rows[n]))
    ensures after == JobsAfter(jobs, rows[..n + 1])
  {
    JobsStep(jobs, rows, n);
  }

  lemma CompaniesValueStep(companies: map<string, Props>, rows: seq<CsvRow>, decode: Decoder, n: nat,
      before: map<string, Props>, after: map<string, Props>)
    requires n < |rows| && before == CompaniesAfter(companies, rows[..n], decode)
    requires after == MergeProps(before, rows[n].company, CompanyProperties(ParseProfile(rows[n], decode)))
    ensures after == CompaniesAfter(companies, rows[..n + 1], decode)
  {
    CompaniesStep(companies, rows, decode, n);
  }

  /** Importing record n, as ImportRow states it, extends EdgesUpTo from n to n + 1. */
  lemma EdgesStep(rows: seq<CsvRow>, n: nat, locations: set<Location>, edges: seq<Edge>, edges0: seq<Edge>, edges1: seq<Edge>)
    requires n < |rows|
    requires EdgesUpTo(rows, n, locations, edges, edges0)
    requires AddsOnlyNew(edges0, edges1)
    requires RowLinked(rows[n], locations + RowLocations(rows[..n + 1]), edges1)
    requires forall k :: |edges0| <= k < |edges1| ==> RowEdge(rows[n], locations + RowLocations(rows[..n + 1]), edges1[k])
    ensures EdgesUpTo(rows, n + 1, locations, edges, edges1)
  {
    AddsOnlyNewTransitive(edges, edges0, edges1);
    RowsStep(rows, n, locations, |edges|, edges0, edges1);
  }

  /** Lines 29-39: every record in order. */
  method ImportRows(store: Store, rows: seq<CsvRow>, decode: Decoder)
    requires store.Valid()
    modifies store
    ensures store.Valid()
    ensures store.jobs == JobsAfter(old(store.jobs), rows)
    ensures store.companies == CompaniesAfter(old(store.companies), rows, decode)
    ensures store.locations == old(store.locations) + RowLocations(rows)
    ensures store.skills == old(store.skills) && store.responsibilities == old(store.responsibilities)
    ensures store.datasets == old(store.datasets)
    ensures AddsOnlyNew(old(store.edges), store.edges)
    ensures RowsLinked(rows, old(store.locations), store.edges)
    ensures OnlyRowEdges(rows, old(store.locations), |old(store.edges)|, store.edges)
  {
    assert rows[..0] == [];
    assert AddsOnlyNew(store.edges, store.edges);
    for n := 0 to |rows|
      invariant store.Valid()
      invariant TablesUpTo(rows, n, decode, old(store.jobs), old(store.companies), old(store.locations),
        store.jobs, store.companies, store.locations)
      invariant EdgesUpTo(rows, n, old(store.locations), old(store.edges), store.edges)
      invariant store.skills == old(store.skills) && store.responsibilities == old(store.responsibilities)
      invariant store.datasets == old(store.datasets)
    {
      ghost var jobs0, companies0, locations0, edges0 := store.jobs, store.companies, store.locations, store.edges;
      ImportRow(store, rows[n], decode);
      TablesStep(rows, n, decode, old(store.jobs), old(store.companies), old(store.locations),
        jobs0, companies0, locations0, store.jobs, store.companies, store.locations);
      EdgesStep(rows, n, old(store.locations), old(store.edges), edges0, store.edges);
    }
    assert rows[..|rows|] == rows;
  }

  /**
   * import_jobs (lines 17-39): a file whose marker exists is skipped with no
   * write at all; otherwise the marker is merged first (with the time `now`)
   * and then every record is imported.
   */
  method ImportJobs(store: Store, path: string, rows: seq<CsvRow>, now: Value, decode: Decoder)
    requires store.Valid()
    modifies store
    ensures store.Valid()
    ensures path in old(store.datasets) ==>
      && store.jobs == old(store.jobs) && store.skills == old(store.skills)
      && store.responsibilities == old(store.responsibilities) && store.companies == old(store.companies)
      && store.locations == old(store.locations) && store.datasets == old(store.datasets)
      && store.edges == old(store.edges)
    ensures path !in old(store.datasets) ==> store.datasets == old(store.datasets)[path := now]
    ensures path !in old(store.datasets) ==> store.jobs == JobsAfter(old(store.jobs), rows)
    ensures path !in old(store.datasets) ==> store.companies == CompaniesAfter(old(store.companies), rows, decode)
    ensures path !in old(store.datasets) ==> store.locations == old(store.locations) + RowLocations(rows)
    ensures store.skills == old(store.skills) && store.responsibilities == old(store.responsibilities)
    ensures AddsOnlyNew(old(store.edges), store.edges)
    ensures path !in old(store.datasets) ==>
      && RowsLinked(rows, old(store.locations), store.edges)
      && OnlyRowEdges(rows, old(store.locations), |old(store.edges)|, store.edges)
  {
    var imported := IsDataImported(store, path);
    if imported {
      return;
    }
    MarkDataAsImported(store, path, now);
    ImportRows(store, rows, decode);
  }
}
