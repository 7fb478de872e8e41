/**
 * The conditions of the two relationship-inference passes: skill similarity
 * (IS_SIMILAR_TO, in newver.py and populate_neo4j.py) and role progression
 * (LEADS_TO, in newver.py only).
 */
module Inference {
  import opened Text

  // ---------------------------------------------------------------------------
  // IS_SIMILAR_TO

  /** `skill1 != skill2 and skill1.lower() in skill2.lower()`: a directed, case-insensitive substring test. */
  predicate Similar(skill1: string, skill2: string)
  {
    skill1 != skill2 && Contains(Lower(skill2), Lower(skill1))
  }

  /** The relation is directional: "Java" is similar to "JavaScript", not the reverse. */
  lemma JavaScriptExample()
    ensures Similar("Java", "JavaScript")
    ensures !Similar("JavaScript", "Java")
  {
    JavaInJavaScript("Java", "JavaScript");
    JavaScriptNotInJava("Java", "JavaScript");
  }

  lemma JavaInJavaScript(java: string, script: string)
    requires java == "Java" && script == "JavaScript"
    ensures Similar(java, script)
  {
    assert Lower(java) == "java";
    assert Lower(script)[..4] == "java";
    assert StartsWith(Lower(script), Lower(java));
  }

  lemma JavaScriptNotInJava(java: string, script: string)
    requires java == "Java" && script == "JavaScript"
    ensures !Similar(script, java)
  {
    if Contains(Lower(java), Lower(script)) {
      ContainsLength(Lower(java), Lower(script));
    }
  }

  /** Two different names that are equal up to case are similar in both directions. */
  lemma SimilarUpToCase(skill1: string, skill2: string)
    requires skill1 != skill2 && Lower(skill1) == Lower(skill2)
    ensures Similar(skill1, skill2) && Similar(skill2, skill1)
  {
    ContainsSelf(Lower(skill1));
  }

  /** Similarity in both directions happens only between names that are equal up to case. */
  lemma SimilarBothWays(skill1: string, skill2: string)
    requires Similar(skill1, skill2) && Similar(skill2, skill1)
    ensures Lower(skill1) == Lower(skill2)
  {
    ContainsBothWays(Lower(skill1), Lower(skill2));
  }

  // ---------------------------------------------------------------------------
  // LEADS_TO

  /** The keyword list of newver.py, in ascending seniority. */
  const HierarchyKeywords: seq<string> := ["Junior", "Mid", "Senior", "Lead", "Manager", "Director"]

  /**
   * `any(k1 in role1.lower() and k2 in role2.lower() for k1, k2 in zip(kw, kw[1:]))`:
   * scanning adjacent keyword pairs from the lowest.
   */
  predicate Progresses(keywords: seq<string>, role1: string, role2: string)
    decreases |keywords|
  {
    && |keywords| >= 2
    && ((Contains(Lower(role1), keywords[0]) && Contains(Lower(role2), keywords[1]))
        || Progresses(keywords[1..], role1, role2))
  }

  /** Some adjacent pair (k_i, k_i+1) has k_i in the lower-cased role1 and k_i+1 in the lower-cased role2. */
  predicate AdjacentPairMatches(keywords: seq<string>, role1: string, role2: string, i: nat)
  {
    i + 1 < |keywords| && Contains(Lower(role1), keywords[i]) && Contains(Lower(role2), keywords[i + 1])
  }

  /** The scan is true exactly when some adjacent keyword pair matches. */
  lemma {:induction false} ProgressesIff(keywords: seq<string>, role1: string, role2: string)
    ensures Progresses(keywords, role1, role2) <==> exists i: nat :: AdjacentPairMatches(keywords, role1, role2, i)
    decreases |keywords|
  {
    if |keywords| >= 2 {
      ProgressesIff(keywords[1..], role1, role2);
      if Contains(Lower(role1), keywords[0]) && Contains(Lower(role2), keywords[1]) {
        assert AdjacentPairMatches(keywords, role1, role2, 0);
      }
      if exists i: nat :: AdjacentPairMatches(keywords, role1, role2, i) {
        var i: nat :| AdjacentPairMatches(keywords, role1, role2, i);
        if i > 0 {
          assert AdjacentPairMatches(keywords[1..], role1, role2, i - 1);
        }
      }
      if exists i: nat :: AdjacentPairMatches(keywords[1..], role1, role2, i) {
        var i: nat :| AdjacentPairMatches(keywords[1..], role1, role2, i);
        assert AdjacentPairMatches(keywords, role1, role2, i + 1);
      }
    } else {
      assert forall i: nat :: !AdjacentPairMatches(keywords, role1, role2, i);
    }
  }

  /** A string starting with an upper-case letter never occurs in a lower-cased string. */
  lemma CapitalisedNotInLower(s: string, k: string)
    requires k != [] && IsUpper(k[0])
    ensures !Contains(Lower(s), k)
  {
    if Contains(Lower(s), k) {
      ContainsChars(Lower(s), k, 0);
    }
  }

  /** Keywords that all start with a capital letter never match lower-cased roles. */
  lemma {:induction false} CapitalisedNeverProgress(keywords: seq<string>, role1: string, role2: string)
    requires forall i :: 0 <= i < |keywords| ==> keywords[i] != [] && IsUpper(keywords[i][0])
    ensures !Progresses(keywords, role1, role2)
    decreases |keywords|
  {
    if |keywords| >= 2 {
      CapitalisedNotInLower(role1, keywords[0]);
      CapitalisedNeverProgress(keywords[1..], role1, role2);
    }
  }

  /** With the keyword list as written, no pair of roles ever progresses, so LEADS_TO gets no edge. */
  lemma HierarchyKeywordsNeverProgress(role1: string, role2: string)
    ensures !Progresses(HierarchyKeywords, role1, role2)
  {
    CapitalisedNeverProgress(HierarchyKeywords, role1, role2);
  }

  /** With lower-case keywords the condition does what the comment promises for a junior and a senior role. */
  lemma LowerCaseKeywordsExample()
    ensures Progresses(["junior", "senior"], "Junior Engineer", "Senior Engineer")
    ensures !Progresses(["junior", "senior"], "Junior Engineer", "Junior Engineer")
  {
    JuniorToSenior("Junior Engineer", "Senior Engineer", ["junior", "senior"]);
    JuniorNotToJunior("Junior Engineer", ["junior", "senior"]);
  }

  lemma JuniorToSenior(junior: string, senior: string, keywords: seq<string>)
    requires junior == "Junior Engineer" && senior == "Senior Engineer" && keywords == ["junior", "senior"]
    ensures Progresses(keywords, junior, senior)
  {
    var lj, ls := Lower(junior), Lower(senior);
    assert lj[..6] == "junior";
    assert ls[..6] == "senior";
    assert StartsWith(lj, keywords[0]);
    assert StartsWith(ls, keywords[1]);
  }

  /** A string whose first character does not occur in s does not occur in s. */
  lemma MissingFirstChar(s: string, p: string)
    requires p != [] && p[0] !in s
    ensures !Contains(s, p)
  {
    if Contains(s, p) {
      ContainsChars(s, p, 0);
    }
  }

  lemma JuniorNotToJunior(junior: string, keywords: seq<string>)
    requires junior == "Junior Engineer" && keywords == ["junior", "senior"]
    ensures !Progresses(keywords, junior, junior)
  {
    JuniorLacksSenior(junior, keywords[1]);
    SecondKeywordMissing(keywords, junior, junior);
  }

  lemma JuniorLacksSenior(junior: string, senior: string)
    requires junior == "Junior Engineer" && senior == "senior"
    ensures !Contains(Lower(junior), senior)
  {
    LowerLacks(junior, 's');
    MissingFirstChar(Lower(junior), senior);
  }

  /** A lower-case letter absent from s in both cases is absent from its lower-cased form. */
  lemma LowerLacks(s: string, c: char)
    requires 'a' <= c <= 'z' && c !in s && (c as int - 32) as char !in s
    ensures c !in Lower(s)
  {
    forall i | 0 <= i < |s| ensures Lower(s)[i] != c {
      assert s[i] != c && s[i] != (c as int - 32) as char;
    }
  }

  /** With two keywords, a role2 without the second one never progresses. */
  lemma SecondKeywordMissing(keywords: seq<string>, role1: string, role2: string)
    requires |keywords| == 2 && !Contains(Lower(role2), keywords[1])
    ensures !Progresses(keywords, role1, role2)
  {
    assert |keywords[1..]| == 1;
  }

}
