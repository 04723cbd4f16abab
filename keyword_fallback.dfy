/** `_fallback_skill_extraction`: without the remote classifier, the résumé
    is scanned for a fixed table of technical keywords. */
module KeywordFallback {
  import opened Wrappers
  import opened PyStr
  import opened SkillModel
  import opened Sequences

  /** The keyword table, in its declared order. */
  const TechKeywords: seq<Category> := [
    ("programming_languages",
      ["Python", "JavaScript", "Java", "C++", "C#", "Go", "Rust", "TypeScript", "SQL", "R", "Swift", "Kotlin"]),
    ("frameworks",
      ["React", "Vue", "Angular", "Django", "Flask", "FastAPI", "Spring", "Node.js", "Express", "TensorFlow", "PyTorch"]),
    ("tools",
      ["Git", "Docker", "Kubernetes", "AWS", "Azure", "GCP", "Jenkins", "CI/CD", "Linux", "MongoDB", "PostgreSQL", "Redis"])
  ]

  /** `keyword.lower() in resume_lower`: plain substring containment, not a
      word match. */
  predicate Matches(keyword: string, resumeLower: string)
  {
    Contains(resumeLower, Lower(keyword))
  }

  /** The keywords of `keywords` that match, in the order of `keywords`. */
  function Found(keywords: seq<string>, resumeLower: string): seq<string>
  {
    if keywords == [] then []
    else
      var last := keywords[|keywords| - 1];
      Found(keywords[..|keywords| - 1], resumeLower) + (if Matches(last, resumeLower) then [last] else [])
  }

  /** For each category of `table`, its key and its matching keywords. */
  function TableFound(table: seq<Category>, resumeLower: string): seq<Category>
  {
    seq(|table|, c requires 0 <= c < |table| => (table[c].0, Found(table[c].1, resumeLower)))
  }

  /** The record the fallback returns for `resumeText`. */
  function FallbackRecord(resumeText: string): SkillData
  {
    SkillData(Some(Skills(TableFound(TechKeywords, Lower(resumeText)), [], [], [])), map[], [])
  }

  /** The two nested loops of the fallback: for each category, for each
      keyword, append the keyword to the category's list when it matches.
      The lists start empty, one per category, in table order. */
  method ScanTable(table: seq<Category>, resumeLower: string) returns (found: seq<Category>)
    ensures found == TableFound(table, resumeLower)
  {
    found := seq(|table|, c requires 0 <= c < |table| => (table[c].0, []));
    var c := 0;
    while c < |table|
      invariant 0 <= c <= |table| && |found| == |table|
      invariant forall j :: 0 <= j < c ==> found[j] == (table[j].0, Found(table[j].1, resumeLower))
      invariant forall j :: c <= j < |found| ==> found[j] == (table[j].0, [])
    {
      var (category, keywords) := table[c];
      var k := 0;
      while k < |keywords|
        invariant 0 <= k <= |keywords| && |found| == |table|
        invariant found[c] == (category, Found(keywords[..k], resumeLower))
        invariant forall j :: 0 <= j < c ==> found[j] == (table[j].0, Found(table[j].1, resumeLower))
        invariant forall j :: c < j < |found| ==> found[j] == (table[j].0, [])
      {
        var keyword := keywords[k];
        FoundStep(keywords, k, resumeLower);
        if Contains(resumeLower, Lower(keyword)) {
          found := found[c := (category, found[c].1 + [keyword])];
        }
        assert found[c].1 == Found(keywords[..k + 1], resumeLower);
        assert found[c].0 == category;
        k := k + 1;
      }
      assert keywords[..k] == keywords;
      c := c + 1;
    }
  }

  /** `_fallback_skill_extraction`: the keyword table scanned against the
      lower-cased résumé; every non-technical field is empty. */
  method FallbackSkillExtraction(resumeText: string) returns (data: SkillData)
    ensures data == FallbackRecord(resumeText)
  {
    var resumeLower := Lower(resumeText);
    var found := ScanTable(TechKeywords, resumeLower);
    data := SkillData(Some(Skills(found, [], [], [])), map[], []);
  }

  /** Scanning one more keyword appends it when it matches. */
  lemma FoundStep(keywords: seq<string>, k: nat, resumeLower: string)
    requires k < |keywords|
    ensures Found(keywords[..k + 1], resumeLower) ==
      Found(keywords[..k], resumeLower) + (if Matches(keywords[k], resumeLower) then [keywords[k]] else [])
  {
    assert keywords[..k + 1][..k] == keywords[..k];
  }

  // ---------------------------------------------------------------------
  // Properties

  lemma {:induction false} FoundSubsequence(keywords: seq<string>, resumeLower: string)
    ensures IsSubsequence(Found(keywords, resumeLower), keywords)
  {
    if keywords != [] {
      var init := keywords[..|keywords| - 1];
      var last := keywords[|keywords| - 1];
      FoundSubsequence(init, resumeLower);
      var f := Found(keywords, resumeLower);
      if Matches(last, resumeLower) {
        assert f == Found(init, resumeLower) + [last];
        assert f[..|f| - 1] == Found(init, resumeLower);
        assert f[|f| - 1] == last;
      } else {
        assert f == Found(init, resumeLower);
      }
    }
  }

  lemma {:induction false} FoundMembers(keywords: seq<string>, resumeLower: string)
    ensures forall w :: w in Found(keywords, resumeLower) <==> w in keywords && Matches(w, resumeLower)
  {
    if keywords != [] {
      var init := keywords[..|keywords| - 1];
      FoundMembers(init, resumeLower);
      assert keywords == init + [keywords[|keywords| - 1]];
    }
  }

  lemma {:induction false} FoundDistinct(keywords: seq<string>, resumeLower: string)
    requires NoDuplicates(keywords)
    ensures NoDuplicates(Found(keywords, resumeLower))
  {
    if keywords != [] {
      var init := keywords[..|keywords| - 1];
      var last := keywords[|keywords| - 1];
      DistinctInit(keywords);
      FoundDistinct(init, resumeLower);
      if Matches(last, resumeLower) {
        FoundMembers(init, resumeLower);
        DistinctSnoc(Found(init, resumeLower), last);
      }
    }
  }

  /** The found keywords are exactly the matching keywords, each once, in
      table order. */
  lemma FoundSpec(keywords: seq<string>, resumeLower: string)
    ensures IsSubsequence(Found(keywords, resumeLower), keywords)
    ensures forall w :: w in Found(keywords, resumeLower) <==> w in keywords && Matches(w, resumeLower)
    ensures NoDuplicates(keywords) ==> NoDuplicates(Found(keywords, resumeLower))
  {
    FoundSubsequence(keywords, resumeLower);
    FoundMembers(keywords, resumeLower);
    if NoDuplicates(keywords) {
      FoundDistinct(keywords, resumeLower);
    }
  }

  lemma TechKeywordsDistinct()
    ensures forall c :: 0 <= c < |TechKeywords| ==> NoDuplicates(TechKeywords[c].1)
  {
  }

  /** The fallback record: the technical map has exactly the three keys of
      the table, in order, each listing precisely the table's keywords whose
      lower-case form occurs in the lower-cased résumé, once each, in table
      order; every other field is empty. */
  lemma FallbackMatching(resumeText: string)
    ensures var data := FallbackRecord(resumeText);
      && data.skills.Some?
      && data.skills.value.softSkills == [] && data.skills.value.domains == []
      && data.skills.value.certifications == []
      && data.experienceLevels == map[] && data.relationships == []
      && |data.skills.value.technical| == 3
      && data.skills.value.technical[0].0 == "programming_languages"
      && data.skills.value.technical[1].0 == "frameworks"
      && data.skills.value.technical[2].0 == "tools"
      && forall c :: 0 <= c < 3 ==>
        var found := data.skills.value.technical[c].1;
        && IsSubsequence(found, TechKeywords[c].1)
        && NoDuplicates(found)
        && forall w :: w in found <==> w in TechKeywords[c].1 && Contains(Lower(resumeText), Lower(w))
  {
    TechKeywordsDistinct();
    forall c | 0 <= c < 3
      ensures var found := Found(TechKeywords[c].1, Lower(resumeText));
        && IsSubsequence(found, TechKeywords[c].1)
        && NoDuplicates(found)
        && forall w :: w in found <==> w in TechKeywords[c].1 && Contains(Lower(resumeText), Lower(w))
    {
      FoundSpec(TechKeywords[c].1, Lower(resumeText));
    }
  }

  /** The programming languages the fallback finds. */
  function Languages(resumeText: string): seq<string>
  {
    FallbackRecord(resumeText).skills.value.technical[0].1
  }

  /** A keyword of the programming-language list is found exactly when its
      lower-case form occurs in the lower-cased résumé. */
  lemma LanguageFound(resumeText: string, k: nat)
    requires k < |TechKeywords[0].1|
    ensures var w := TechKeywords[0].1[k];
      w in Languages(resumeText) <==> Contains(Lower(resumeText), Lower(w))
  {
    FoundMembers(TechKeywords[0].1, Lower(resumeText));
    assert Languages(resumeText) == TableFound(TechKeywords, Lower(resumeText))[0].1;
  }

  /** Substring matching: whenever "JavaScript" is found, so is "Java". */
  lemma JavaScriptImpliesJava(resumeText: string)
    ensures "JavaScript" in Languages(resumeText) ==> "Java" in Languages(resumeText)
  {
    var t := Lower(resumeText);
    assert TechKeywords[0].1[1] == "JavaScript" && TechKeywords[0].1[2] == "Java";
    LanguageFound(resumeText, 1);
    LanguageFound(resumeText, 2);
    assert Lower("JavaScript") == "java" + "script" by {
      assert |Lower("JavaScript")| == 10;
    }
    assert Lower("Java") == "java";
    if Contains(t, "java" + "script") {
      ContainsPrefix(t, "java", "script");
    }
  }

  /** Substring matching: "R" is found exactly when the résumé holds the
      letter r in either case. */
  lemma LetterR(resumeText: string)
    ensures "R" in Languages(resumeText) <==> 'r' in resumeText || 'R' in resumeText
  {
    var t := Lower(resumeText);
    assert TechKeywords[0].1[9] == "R";
    LanguageFound(resumeText, 9);
    assert Lower("R") == "r";
    if Contains(t, "r") {
      var i :| 0 <= i <= |t| - 1 && OccursAt(t, "r", i);
      assert t[i] == 'r';
      assert resumeText[i] == 'r' || resumeText[i] == 'R';
    }
    if 'r' in resumeText || 'R' in resumeText {
      var i :| 0 <= i < |resumeText| && (resumeText[i] == 'r' || resumeText[i] == 'R');
      assert t[i..i + 1] == "r";
      assert OccursAt(t, "r", i);
    }
  }

  /** Substring matching: "Go" is found in any résumé that says "good". */
  lemma GoodMatchesGo(resumeText: string)
    requires Contains(Lower(resumeText), "good")
    ensures "Go" in Languages(resumeText)
  {
    var t := Lower(resumeText);
    assert TechKeywords[0].1[5] == "Go";
    LanguageFound(resumeText, 5);
    assert "good" == "go" + "od";
    ContainsPrefix(t, "go", "od");
    assert Lower("Go") == "go";
  }
}
