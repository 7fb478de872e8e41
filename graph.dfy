/**
 * The property-graph store the scripts write into, modelled from the
 * semantics of the operations they issue rather than from the database:
 *
 * - a node table per label, keyed by the label's natural key (Job by job_id,
 *   Skill by name, Responsibility by description, Company by name, Location by
 *   its four coordinates, Dataset by file path), so MERGE-by-key is a map
 *   update and a key never names two nodes;
 * - relationships as a sequence of (type, from, to) triples, so that a
 *   relationship CREATE can add a second copy and the "check before create"
 *   guards have something to prevent.
 */
module Graph {

  /** A property value: a string, a number parsed by `toFloat` (kept as its text), pandas' NaN, or null. */
  datatype Value = String(s: string) | Float(literal: string) | NaN | Null

  /** The properties of a node. */
  type Props = map<string, Value>

  type JobId = string

  /** A Location node is identified by all four of its properties. */
  datatype Location = Location(city: string, country: string, latitude: Value, longitude: Value)

  datatype Node =
    | JobNode(jobId: JobId)
    | SkillNode(skill: string)
    | ResponsibilityNode(description: string)
    | CompanyNode(company: string)
    | LocationNode(location: Location)

  datatype Rel = RequiresSkill | HasResponsibility | PostedBy | LocatedIn | LeadsTo | IsSimilarTo

  datatype Edge = Edge(rel: Rel, source: Node, target: Node)

  predicate NoDuplicates<T(==)>(s: seq<T>)
  {
    forall i, j :: 0 <= i < j < |s| ==> s[i] != s[j]
  }

  /**
   * `after` extends `before`, and every appended element is new: absent from
   * `before` and different from every other appended element.
   */
  predicate AddsOnlyNew<T(==)>(before: seq<T>, after: seq<T>)
  {
    && |before| <= |after|
    && after[..|before|] == before
    && forall i, j :: 0 <= i < j < |after| && |before| <= j ==> after[i] != after[j]
  }

  /** Adding only new elements keeps a duplicate-free sequence duplicate-free. */
  lemma AddsOnlyNewKeepsNoDuplicates<T>(before: seq<T>, after: seq<T>)
    requires NoDuplicates(before) && AddsOnlyNew(before, after)
    ensures NoDuplicates(after)
  {
    forall i, j | 0 <= i < j < |after| ensures after[i] != after[j] {
      if j < |before| {
        assert after[i] == before[i] && after[j] == before[j];
      }
    }
  }

  /** Two stages that each add only new elements together add only new elements. */
  lemma AddsOnlyNewTransitive<T>(a: seq<T>, b: seq<T>, c: seq<T>)
    requires AddsOnlyNew(a, b) && AddsOnlyNew(b, c)
    ensures AddsOnlyNew(a, c)
  {
    assert c[..|a|] == c[..|b|][..|a|];
    forall i, j | 0 <= i < j < |c| && |a| <= j ensures c[i] != c[j] {
      if j < |b| {
        assert c[i] == b[i] && c[j] == b[j];
      }
    }
  }

  /** What was there before is still there, at the same positions. */
  lemma AddsOnlyNewPrefix<T>(before: seq<T>, after: seq<T>)
    requires AddsOnlyNew(before, after)
    ensures forall k :: 0 <= k < |before| ==> after[k] == before[k]
    ensures forall x :: x in before ==> x in after
  {
    forall k | 0 <= k < |before| ensures after[k] == before[k] {
      assert after[..|before|][k] == after[k];
    }
  }

  /** The properties a key has so far: none when no node has the key yet. */
  function Base<K>(m: map<K, Props>, k: K): Props
  {
    if k in m then m[k] else map[]
  }

  /**
   * MERGE on a key followed by `SET n += props` (py2neo's `merge` and the
   * importer's MERGE ... SET): the key ends up present, its listed properties
   * take the new values, its other properties and every other key are kept.
   */
  function MergeProps<K>(m: map<K, Props>, k: K, props: Props): (r: map<K, Props>)
    ensures r.Keys == m.Keys + {k}
    ensures forall p :: p in props ==> p in r[k] && r[k][p] == props[p]
    ensures forall p :: p in Base(m, k) && p !in props ==> p in r[k] && r[k][p] == Base(m, k)[p]
    ensures r[k].Keys == Base(m, k).Keys + props.Keys
    ensures forall k' :: k' in m && k' != k ==> r[k'] == m[k']
  {
    m[k := Base(m, k) + props]
  }

  /** Upserting a key twice with the same property names keeps only the second values (last write wins). */
  lemma LastWriteWins<K>(m: map<K, Props>, k: K, first: Props, second: Props)
    requires first.Keys <= second.Keys
    ensures MergeProps(MergeProps(m, k, first), k, second) == MergeProps(m, k, second)
  {
    OverrideSameNames(Base(m, k), first, second);
  }

  /** The position of the last occurrence of k. */
  function LastIndexOf<K(==)>(ks: seq<K>, k: K): (i: nat)
    requires k in ks
    ensures i < |ks| && ks[i] == k
    ensures forall j :: i < j < |ks| ==> ks[j] != k
  {
    if ks[|ks| - 1] == k then |ks| - 1
    else
      assert k in ks[..|ks| - 1] by {
        var j :| 0 <= j < |ks| && ks[j] == k;
        assert ks[..|ks| - 1][j] == k;
      }
      LastIndexOf(ks[..|ks| - 1], k)
  }

  /** All the property maps list the same property names (every row SETs the same properties). */
  predicate SameNames(props: seq<Props>)
  {
    forall i, j :: 0 <= i < |props| && 0 <= j < |props| ==> props[i].Keys == props[j].Keys
  }

  /** The upserts keys[0] with props[0], then keys[1] with props[1], and so on. */
  function MergeAll<K>(m: map<K, Props>, keys: seq<K>, props: seq<Props>): map<K, Props>
    requires |keys| == |props|
    decreases |keys|
  {
    if keys == [] then m
    else
      var n := |keys| - 1;
      MergeProps(MergeAll(m, keys[..n], props[..n]), keys[n], props[n])
  }

  /** After a run of upserts, exactly the old keys and the upserted keys are present. */
  lemma {:induction false} MergeAllKeys<K>(m: map<K, Props>, keys: seq<K>, props: seq<Props>)
    requires |keys| == |props|
    ensures forall k :: k in MergeAll(m, keys, props) <==> k in m || k in keys
    decreases |keys|
  {
    if keys != [] {
      var n := |keys| - 1;
      MergeAllKeys(m, keys[..n], props[..n]);
      assert forall k :: k in keys <==> k in keys[..n] || k == keys[n] by {
        assert keys == keys[..n] + [keys[n]];
      }
    }
  }

  /** A key that no upsert names keeps its old properties. */
  lemma {:induction false} MergeAllUntouched<K>(m: map<K, Props>, keys: seq<K>, props: seq<Props>, k: K)
    requires |keys| == |props| && k !in keys
    ensures Base(MergeAll(m, keys, props), k) == Base(m, k)
    decreases |keys|
  {
    if keys != [] {
      var n := |keys| - 1;
      assert forall j :: 0 <= j < n ==> keys[..n][j] == keys[j];
      MergeAllUntouched(m, keys[..n], props[..n], k);
    }
  }

  /** Overriding with `first` and then with `second`, which sets at least the same names, is overriding with `second`. */
  lemma OverrideSameNames(base: Props, first: Props, second: Props)
    requires first.Keys <= second.Keys
    ensures (base + first) + second == base + second
  {
  }

  /**
   * Last write wins: when every upsert sets the same property names, an
   * upserted key ends up with its old properties overwritten by those of its
   * last upsert, whatever the earlier upserts of it set.
   */
  lemma {:induction false} MergeAllLastWins<K>(m: map<K, Props>, keys: seq<K>, props: seq<Props>, k: K)
    requires |keys| == |props| && SameNames(props) && k in keys
    ensures k in MergeAll(m, keys, props)
    ensures MergeAll(m, keys, props)[k] == Base(m, k) + props[LastIndexOf(keys, k)]
    decreases |keys|
  {
    var n := |keys| - 1;
    var ks, ps := keys[..n], props[..n];
    var before := MergeAll(m, ks, ps);
    assert SameNames(ps);
    if keys[n] == k {
      if k in ks {
        MergeAllLastWins(m, ks, ps, k);
        var i := LastIndexOf(ks, k);
        assert props[i] == ps[i];
        OverrideSameNames(Base(m, k), ps[i], props[n]);
      } else {
        MergeAllUntouched(m, ks, ps, k);
      }
    } else {
      assert k in ks by {
        var j :| 0 <= j < |keys| && keys[j] == k;
        assert ks[j] == k;
      }
      MergeAllLastWins(m, ks, ps, k);
      assert LastIndexOf(keys, k) == LastIndexOf(ks, k);
      assert props[LastIndexOf(ks, k)] == ps[LastIndexOf(ks, k)];
    }
  }

  /** MERGE of a relationship: it is added unless an equal one already exists. */
  function MergeEdgeInto(edges: seq<Edge>, e: Edge): (r: seq<Edge>)
    ensures e in r
    ensures forall x :: x in r <==> x in edges || x == e
    ensures AddsOnlyNew(edges, r)
  {
    if e in edges then edges else edges + [e]
  }

  /** Merging the same relationship twice leaves exactly one copy of it in a duplicate-free store. */
  lemma MergeEdgeTwice(edges: seq<Edge>, e: Edge)
    requires NoDuplicates(edges)
    ensures MergeEdgeInto(MergeEdgeInto(edges, e), e) == MergeEdgeInto(edges, e)
    ensures multiset(MergeEdgeInto(edges, e))[e] == 1
  {
    var r := MergeEdgeInto(edges, e);
    AddsOnlyNewKeepsNoDuplicates(edges, r);
    NoDuplicatesCountsOnce(r, e);
  }

  lemma {:induction false} NoDuplicatesCountsOnce<T>(s: seq<T>, x: T)
    requires NoDuplicates(s) && x in s
    ensures multiset(s)[x] == 1
  {
    var i :| 0 <= i < |s| && s[i] == x;
    assert s == s[..i] + [x] + s[i + 1..];
    assert x !in s[..i] by {
      forall k | 0 <= k < i ensures s[..i][k] != x { assert s[..i][k] == s[k]; }
    }
    var after := s[i + 1..];
    assert x !in after by {
      forall k | 0 <= k < |after| ensures after[k] != x { assert after[k] == s[i + 1 + k]; }
    }
    assert multiset(s) == multiset(s[..i]) + multiset{x} + multiset(after);
  }

  /** `list(someSet)`: the elements of a set, each once, in an unspecified order. */
  method Enumerate<T(==)>(s: set<T>) returns (xs: seq<T>)
    ensures NoDuplicates(xs)
    ensures forall x :: x in xs <==> x in s
  {
    xs := [];
    var rest := s;
    while rest != {}
      invariant rest <= s
      invariant NoDuplicates(xs)
      invariant forall x :: x in xs <==> x in s - rest
      decreases rest
    {
      var x :| x in rest;
      assert x !in xs;
      xs := xs + [x];
      rest := rest - {x};
    }
  }

  /** The shared graph store. */
  class Store {
    var jobs: map<JobId, Props>
    var skills: set<string>
    var responsibilities: set<string>
    var companies: map<string, Props>
    var locations: set<Location>
    /** Dataset markers: file path to the time it was marked imported. */
    var datasets: map<string, Value>
    var edges: seq<Edge>

    constructor ()
      ensures Valid()
      ensures jobs == map[] && skills == {} && responsibilities == {} && companies == map[]
      ensures locations == {} && datasets == map[] && edges == []
    {
      jobs, skills, responsibilities, companies := map[], {}, {}, map[];
      locations, datasets, edges := {}, map[], [];
    }

    /** Whether the node exists (a MATCH on its key finds it). */
    predicate HasNode(n: Node)
      reads this
    {
      match n
      case JobNode(id) => id in jobs
      case SkillNode(name) => name in skills
      case ResponsibilityNode(d) => d in responsibilities
      case CompanyNode(name) => name in companies
      case LocationNode(loc) => loc in locations
    }

    /** Every relationship joins two existing nodes. */
    ghost predicate Valid()
      reads this
    {
      forall e :: e in edges ==> HasNode(e.source) && HasNode(e.target)
    }

    /** No node table changed. */
    twostate predicate NodesUnchanged()
      reads this
    {
      && jobs == old(jobs) && skills == old(skills) && responsibilities == old(responsibilities)
      && companies == old(companies) && locations == old(locations) && datasets == old(datasets)
    }

    /** `graph.merge(Node("Job", ...), "Job", "job_id")` and `MERGE (job:Job {job_id}) SET ...`. */
    method MergeJob(id: JobId, props: Props)
      requires Valid()
      modifies this
      ensures Valid()
      ensures jobs == MergeProps(old(jobs), id, props)
      ensures skills == old(skills) && responsibilities == old(responsibilities) && companies == old(companies)
      ensures locations == old(locations) && datasets == old(datasets) && edges == old(edges)
    {
      jobs := MergeProps(jobs, id, props);
    }

    /** `graph.merge(Node("Skill", name=...), "Skill", "name")`. */
    method MergeSkill(name: string)
      requires Valid()
      modifies this
      ensures Valid()
      ensures skills == old(skills) + {name}
      ensures jobs == old(jobs) && responsibilities == old(responsibilities) && companies == old(companies)
      ensures locations == old(locations) && datasets == old(datasets) && edges == old(edges)
    {
      skills := skills + {name};
    }

    /** `graph.merge(Node("Responsibility", description=...), "Responsibility", "description")`. */
    method MergeResponsibility(description: string)
      requires Valid()
      modifies this
      ensures Valid()
      ensures responsibilities == old(responsibilities) + {description}
      ensures jobs == old(jobs) && skills == old(skills) && companies == old(companies)
      ensures locations == old(locations) && datasets == old(datasets) && edges == old(edges)
    {
      responsibilities := responsibilities + {description};
    }

    /** MERGE of a Company by name, then `SET` of the given properties. */
    method MergeCompany(name: string, props: Props)
      requires Valid()
      modifies this
      ensures Valid()
      ensures companies == MergeProps(old(companies), name, props)
      ensures jobs == old(jobs) && skills == old(skills) && responsibilities == old(responsibilities)
      ensures locations == old(locations) && datasets == old(datasets) && edges == old(edges)
    {
      companies := MergeProps(companies, name, props);
    }

    /** MERGE of a Location on all four of its properties. */
    method MergeLocation(loc: Location)
      requires Valid()
      modifies this
      ensures Valid()
      ensures locations == old(locations) + {loc}
      ensures jobs == old(jobs) && skills == old(skills) && responsibilities == old(responsibilities)
      ensures companies == old(companies) && datasets == old(datasets) && edges == old(edges)
    {
      locations := locations + {loc};
    }

    /** `MERGE (d:Dataset {file_path}) SET d.imported_at = ...`. */
    method MergeDataset(path: string, importedAt: Value)
      requires Valid()
      modifies this
      ensures Valid()
      ensures datasets == old(datasets)[path := importedAt]
      ensures jobs == old(jobs) && skills == old(skills) && responsibilities == old(responsibilities)
      ensures companies == old(companies) && locations == old(locations) && edges == old(edges)
    {
      datasets := datasets[path := importedAt];
    }

    /** `matcher.match(label, key=...).first()` is not None. */
    method FindNode(n: Node) returns (found: bool)
      ensures found == HasNode(n)
    {
      found := HasNode(n);
    }

    /** `graph.relationships.match((a, b), type).first()` is not None. */
    method FindEdge(e: Edge) returns (found: bool)
      ensures found == (e in edges)
    {
      found := e in edges;
    }

    /** MERGE of a relationship between two existing nodes. */
    method MergeEdge(e: Edge)
      requires Valid()
      requires HasNode(e.source) && HasNode(e.target)
      modifies this
      ensures Valid() && NodesUnchanged()
      ensures edges == MergeEdgeInto(old(edges), e)
    {
      edges := MergeEdgeInto(edges, e);
    }

    /** `graph.create(Relationship(...))`: always appends, even when an equal relationship exists. */
    method CreateEdge(e: Edge)
      requires Valid()
      requires HasNode(e.source) && HasNode(e.target)
      modifies this
      ensures Valid() && NodesUnchanged()
      ensures edges == old(edges) + [e]
    {
      edges := edges + [e];
    }
  }
}
