/** `build_skill_tree`: the skill record becomes a named tree rooted at
    "Skills", with one branch per non-empty part of the record. */
module TreeBuilder {
  import opened Wrappers
  import opened PyStr
  import opened SkillModel

  const RootName := "Skills"
  const TechnicalName := "Technical Skills"
  const SoftName := "Soft Skills"
  const DomainName := "Domain Expertise"
  const CertificationName := "Certifications"

  /** `category.replace("_", " ").title()` */
  function CategoryLabel(key: string): string
  {
    Title(ReplaceChar(key, '_', ' '))
  }

  /** `[{"name": s, "type": kind} for s in names]` */
  function Leaves(names: seq<string>, kind: string): seq<Node>
  {
    seq(|names|, i requires 0 <= i < |names| => Leaf(names[i], kind))
  }

  function CategoryNode(c: Category): Node
  {
    Inner(CategoryLabel(c.0), Leaves(c.1, "skill"))
  }

  /** The children of "Technical Skills": one node per non-empty category,
      appended in the record's key order. */
  function CategoryNodes(cats: seq<Category>): seq<Node>
  {
    if cats == [] then []
    else
      var last := cats[|cats| - 1];
      CategoryNodes(cats[..|cats| - 1]) + (if last.1 != [] then [CategoryNode(last)] else [])
  }

  /** A top-level branch, present only when its list is non-empty. */
  function Branch(name: string, names: seq<string>, kind: string): seq<Node>
  {
    if names == [] then [] else [Inner(name, Leaves(names, kind))]
  }

  function TechnicalBranch(cats: seq<Category>): seq<Node>
  {
    var nodes := CategoryNodes(cats);
    if nodes == [] then [] else [Inner(TechnicalName, nodes)]
  }

  /** The tree `build_skill_tree` returns for `data`. */
  function SkillTree(data: SkillData): Node
  {
    var s := SkillsOf(data);
    Inner(RootName,
      TechnicalBranch(s.technical)
      + Branch(SoftName, s.softSkills, "skill")
      + Branch(DomainName, s.domains, "skill")
      + Branch(CertificationName, s.certifications, "certification"))
  }

  /** `build_skill_tree`: the root's children list and the technical node's
      children list grow by appending, in the source's order. */
  method BuildSkillTree(data: SkillData) returns (tree: Node)
    ensures tree == SkillTree(data)
  {
    var children: seq<Node> := [];
    var s := SkillsOf(data);
    var tech := s.technical;
    var techChildren: seq<Node> := [];
    var i := 0;
    while i < |tech|
      invariant 0 <= i <= |tech|
      invariant techChildren == CategoryNodes(tech[..i])
    {
      var (category, skills) := tech[i];
      if skills != [] {
        techChildren := techChildren + [CategoryNode((category, skills))];
      }
      assert tech[..i + 1][..i] == tech[..i];
      i := i + 1;
    }
    assert tech[..i] == tech;
    if techChildren != [] {
      children := children + [Inner(TechnicalName, techChildren)];
    }
    assert children == TechnicalBranch(tech);
    if s.softSkills != [] {
      children := children + [Inner(SoftName, Leaves(s.softSkills, "skill"))];
    }
    assert children == TechnicalBranch(tech) + Branch(SoftName, s.softSkills, "skill");
    if s.domains != [] {
      children := children + [Inner(DomainName, Leaves(s.domains, "skill"))];
    }
    assert children == TechnicalBranch(tech) + Branch(SoftName, s.softSkills, "skill")
      + Branch(DomainName, s.domains, "skill");
    if s.certifications != [] {
      children := children + [Inner(CertificationName, Leaves(s.certifications, "certification"))];
    }
    ChildrenAreBranches(data);
    tree := Inner(RootName, children);
  }

  // ---------------------------------------------------------------------
  // The technical node

  /** The positions of the non-empty categories, in increasing order. */
  function NonEmptyIndices(cats: seq<Category>): seq<nat>
  {
    if cats == [] then []
    else NonEmptyIndices(cats[..|cats| - 1]) + (if cats[|cats| - 1].1 != [] then [|cats| - 1] else [])
  }

  lemma {:induction false} NonEmptyIndicesSpec(cats: seq<Category>)
    ensures var idx := NonEmptyIndices(cats);
      && (forall k :: 0 <= k < |idx| ==> idx[k] < |cats|)
      && (forall k, l :: 0 <= k < l < |idx| ==> idx[k] < idx[l])
      && (forall j :: 0 <= j < |cats| ==> (cats[j].1 != [] <==> j in idx))
  {
    if cats != [] {
      var n := |cats| - 1;
      NonEmptyIndicesSpec(cats[..n]);
      forall j | 0 <= j < n
        ensures cats[j] == cats[..n][j]
      {
      }
    }
  }

  /** The technical node holds exactly the non-empty categories, each once,
      in the record's key order: its k-th child is the node of the k-th
      non-empty category. */
  lemma {:induction false} CategoryNodesSelect(cats: seq<Category>)
    ensures var idx := NonEmptyIndices(cats);
      && |CategoryNodes(cats)| == |idx|
      && (forall k :: 0 <= k < |idx| ==> idx[k] < |cats| && CategoryNodes(cats)[k] == CategoryNode(cats[idx[k]]))
      && (forall k, l :: 0 <= k < l < |idx| ==> idx[k] < idx[l])
      && (forall j :: 0 <= j < |cats| ==> (cats[j].1 != [] <==> j in idx))
  {
    NonEmptyIndicesSpec(cats);
    if cats != [] {
      var n := |cats| - 1;
      CategoryNodesSelect(cats[..n]);
      var idx0 := NonEmptyIndices(cats[..n]);
      forall k | 0 <= k < |idx0|
        ensures CategoryNodes(cats)[k] == CategoryNode(cats[idx0[k]])
      {
        assert cats[..n][idx0[k]] == cats[idx0[k]];
      }
    }
  }

  /** There is a technical node exactly when some category is non-empty. */
  lemma CategoryNodesEmpty(cats: seq<Category>)
    ensures CategoryNodes(cats) == [] <==> forall j :: 0 <= j < |cats| ==> cats[j].1 == []
  {
    CategoryNodesSelect(cats);
    if exists j :: 0 <= j < |cats| && cats[j].1 != [] {
      var j :| 0 <= j < |cats| && cats[j].1 != [];
      assert j in NonEmptyIndices(cats);
    }
  }

  // ---------------------------------------------------------------------
  // The root and its branches

  /** Rank of a top-level branch in the fixed order of the source. */
  function BranchRank(name: string): nat
  {
    if name == TechnicalName then 0
    else if name == SoftName then 1
    else if name == DomainName then 2
    else if name == CertificationName then 3
    else 4
  }

  /** Every node of `cs` is a top-level branch, in strictly increasing rank. */
  predicate InFixedOrder(cs: seq<Node>)
  {
    && (forall i :: 0 <= i < |cs| ==> BranchRank(cs[i].name) < 4)
    && (forall i, j :: 0 <= i < j < |cs| ==> BranchRank(cs[i].name) < BranchRank(cs[j].name))
  }

  predicate HasBranch(cs: seq<Node>, name: string)
  {
    exists i :: 0 <= i < |cs| && cs[i].name == name
  }

  /** Every node of `cs` named `name` is `node`. */
  predicate NamedIs(cs: seq<Node>, name: string, node: Node)
  {
    forall i :: 0 <= i < |cs| && cs[i].name == name ==> cs[i] == node
  }

  /** Every node of `x` ranks below `r`. */
  predicate RanksBelow(x: seq<Node>, r: nat)
  {
    forall i :: 0 <= i < |x| ==> BranchRank(x[i].name) < r
  }

  /** `y` is empty or a single node of rank `r`. */
  predicate AtRank(y: seq<Node>, r: nat)
  {
    |y| <= 1 && forall i :: 0 <= i < |y| ==> BranchRank(y[i].name) == r
  }

  lemma ConcatOrder(x: seq<Node>, y: seq<Node>, r: nat)
    requires r < 4 && InFixedOrder(x) && RanksBelow(x, r) && AtRank(y, r)
    ensures InFixedOrder(x + y) && RanksBelow(x + y, r + 1)
  {
    var z := x + y;
    forall i, j | 0 <= i < j < |z|
      ensures BranchRank(z[i].name) < BranchRank(z[j].name)
    {
      if j >= |x| {
        assert z[j] == y[j - |x|];
        if i >= |x| {
          assert false;
        }
      }
    }
  }

  lemma ConcatHas(x: seq<Node>, y: seq<Node>, name: string)
    ensures HasBranch(x + y, name) <==> HasBranch(x, name) || HasBranch(y, name)
  {
    if HasBranch(x + y, name) {
      var i :| 0 <= i < |x + y| && (x + y)[i].name == name;
      if i >= |x| {
        assert y[i - |x|].name == name;
      } else {
        assert x[i].name == name;
      }
    }
    if HasBranch(x, name) {
      var i :| 0 <= i < |x| && x[i].name == name;
      assert (x + y)[i].name == name;
    }
    if HasBranch(y, name) {
      var i :| 0 <= i < |y| && y[i].name == name;
      assert (x + y)[i + |x|].name == name;
    }
  }

  lemma ConcatNamed(x: seq<Node>, y: seq<Node>, name: string, node: Node)
    requires NamedIs(x, name, node) && NamedIs(y, name, node)
    ensures NamedIs(x + y, name, node)
  {
    forall i | 0 <= i < |x + y| && (x + y)[i].name == name
      ensures (x + y)[i] == node
    {
      if i >= |x| {
        assert (x + y)[i] == y[i - |x|];
      }
    }
  }

  /** The root's children list is the concatenation of its four branches. */
  lemma ChildrenAreBranches(data: SkillData)
    ensures var s := SkillsOf(data);
      SkillTree(data).children ==
        TechnicalBranch(s.technical)
        + Branch(SoftName, s.softSkills, "skill")
        + Branch(DomainName, s.domains, "skill")
        + Branch(CertificationName, s.certifications, "certification")
  {
  }

  /** The root is an inner node named "Skills" whose branches come in the
      fixed order Technical Skills, Soft Skills, Domain Expertise,
      Certifications, with no branch twice. */
  lemma BranchOrder(data: SkillData)
    ensures SkillTree(data).Inner? && SkillTree(data).name == RootName
    ensures InFixedOrder(SkillTree(data).children)
  {
    var s := SkillsOf(data);
    var t := TechnicalBranch(s.technical);
    var so := Branch(SoftName, s.softSkills, "skill");
    var d := Branch(DomainName, s.domains, "skill");
    var c := Branch(CertificationName, s.certifications, "certification");
    ChildrenAreBranches(data);
    assert InFixedOrder(t) && RanksBelow(t, 1);
    ConcatOrder(t, so, 1);
    ConcatOrder(t + so, d, 2);
    ConcatOrder(t + so + d, c, 3);
  }

  /** Each top-level branch is present exactly when its part of the record
      is non-empty. */
  lemma BranchPresence(data: SkillData)
    ensures var cs := SkillTree(data).children; var s := SkillsOf(data);
      && (HasBranch(cs, TechnicalName) <==> exists j :: 0 <= j < |s.technical| && s.technical[j].1 != [])
      && (HasBranch(cs, SoftName) <==> s.softSkills != [])
      && (HasBranch(cs, DomainName) <==> s.domains != [])
      && (HasBranch(cs, CertificationName) <==> s.certifications != [])
  {
    var s := SkillsOf(data);
    var t := TechnicalBranch(s.technical);
    var so := Branch(SoftName, s.softSkills, "skill");
    var d := Branch(DomainName, s.domains, "skill");
    var c := Branch(CertificationName, s.certifications, "certification");
    ChildrenAreBranches(data);
    CategoryNodesEmpty(s.technical);
    TechnicalHas(s.technical);
    BranchHas(SoftName, s.softSkills, "skill");
    BranchHas(DomainName, s.domains, "skill");
    BranchHas(CertificationName, s.certifications, "certification");
    HasIn4(t, so, d, c, TechnicalName);
    HasIn4(t, so, d, c, SoftName);
    HasIn4(t, so, d, c, DomainName);
    HasIn4(t, so, d, c, CertificationName);
  }

  lemma BranchHas(name: string, names: seq<string>, kind: string)
    ensures forall other :: HasBranch(Branch(name, names, kind), other) <==> names != [] && other == name
  {
    if names != [] {
      assert Branch(name, names, kind)[0].name == name;
    }
  }

  lemma TechnicalHas(cats: seq<Category>)
    ensures forall other :: HasBranch(TechnicalBranch(cats), other) <==> CategoryNodes(cats) != [] && other == TechnicalName
  {
    if CategoryNodes(cats) != [] {
      assert TechnicalBranch(cats)[0].name == TechnicalName;
    }
  }

  lemma HasIn4(a: seq<Node>, b: seq<Node>, c: seq<Node>, d: seq<Node>, name: string)
    ensures HasBranch(a + b + c + d, name) <==>
      HasBranch(a, name) || HasBranch(b, name) || HasBranch(c, name) || HasBranch(d, name)
  {
    ConcatHas(a, b, name);
    ConcatHas(a + b, c, name);
    ConcatHas(a + b + c, d, name);
  }

  /** A present branch holds one leaf per source string, in the source's
      order ("skill" leaves, "certification" leaves under Certifications);
      the technical branch holds the category nodes. */
  lemma BranchContents(data: SkillData)
    ensures var cs := SkillTree(data).children; var s := SkillsOf(data);
      && NamedIs(cs, TechnicalName, Inner(TechnicalName, CategoryNodes(s.technical)))
      && NamedIs(cs, SoftName, Inner(SoftName, Leaves(s.softSkills, "skill")))
      && NamedIs(cs, DomainName, Inner(DomainName, Leaves(s.domains, "skill")))
      && NamedIs(cs, CertificationName, Inner(CertificationName, Leaves(s.certifications, "certification")))
  {
    var s := SkillsOf(data);
    var t := TechnicalBranch(s.technical);
    var so := Branch(SoftName, s.softSkills, "skill");
    var d := Branch(DomainName, s.domains, "skill");
    var c := Branch(CertificationName, s.certifications, "certification");
    ChildrenAreBranches(data);
    NamedIn4(t, so, d, c, Inner(TechnicalName, CategoryNodes(s.technical)));
    NamedIn4(t, so, d, c, Inner(SoftName, Leaves(s.softSkills, "skill")));
    NamedIn4(t, so, d, c, Inner(DomainName, Leaves(s.domains, "skill")));
    NamedIn4(t, so, d, c, Inner(CertificationName, Leaves(s.certifications, "certification")));
  }

  lemma NamedIn4(a: seq<Node>, b: seq<Node>, c: seq<Node>, d: seq<Node>, node: Node)
    requires NamedIs(a, node.name, node) && NamedIs(b, node.name, node)
    requires NamedIs(c, node.name, node) && NamedIs(d, node.name, node)
    ensures NamedIs(a + b + c + d, node.name, node)
  {
    ConcatNamed(a, b, node.name, node);
    ConcatNamed(a + b, c, node.name, node);
    ConcatNamed(a + b + c, d, node.name, node);
  }

  /** A record with no `skills` key, or with every list empty, gives a root
      with an empty children list, and only such a record does. */
  lemma EmptyTree(data: SkillData)
    ensures var s := SkillsOf(data);
      SkillTree(data).children == [] <==>
        && (forall j :: 0 <= j < |s.technical| ==> s.technical[j].1 == [])
        && s.softSkills == [] && s.domains == [] && s.certifications == []
    ensures data.skills.None? ==> SkillTree(data).children == []
  {
    CategoryNodesEmpty(SkillsOf(data).technical);
  }

  /** Below the root, every inner node has at least one child. */
  predicate NoEmptyInner(n: Node)
  {
    match n
    case Leaf(_, _) => true
    case Inner(_, cs) => cs != [] && forall i :: 0 <= i < |cs| ==> NoEmptyInner(cs[i])
  }

  /** Every leaf below `n` carries the type `kind`. */
  predicate LeavesTyped(n: Node, kind: string)
  {
    match n
    case Leaf(_, k) => k == kind
    case Inner(_, cs) => forall i :: 0 <= i < |cs| ==> LeavesTyped(cs[i], kind)
  }

  /** A top-level branch is non-empty all the way down, and its leaves carry
      the type of the branch. */
  predicate ShapedBranch(n: Node)
  {
    NoEmptyInner(n) && LeavesTyped(n, if n.name == CertificationName then "certification" else "skill")
  }

  lemma {:induction false} CategoryNodesShape(cats: seq<Category>)
    ensures forall n :: n in CategoryNodes(cats) ==> NoEmptyInner(n) && LeavesTyped(n, "skill")
  {
    if cats != [] {
      CategoryNodesShape(cats[..|cats| - 1]);
    }
  }

  lemma LeavesShape(names: seq<string>, kind: string)
    ensures forall i :: 0 <= i < |Leaves(names, kind)| ==>
      NoEmptyInner(Leaves(names, kind)[i]) && LeavesTyped(Leaves(names, kind)[i], kind)
  {
  }

  lemma TechnicalBranchShape(cats: seq<Category>)
    ensures forall n :: n in TechnicalBranch(cats) ==> ShapedBranch(n)
  {
    var nodes := CategoryNodes(cats);
    CategoryNodesShape(cats);
    if nodes != [] {
      assert forall i :: 0 <= i < |nodes| ==> nodes[i] in nodes;
      assert ShapedBranch(Inner(TechnicalName, nodes));
    }
  }

  lemma BranchShape(name: string, names: seq<string>, kind: string)
    requires kind == if name == CertificationName then "certification" else "skill"
    ensures forall n :: n in Branch(name, names, kind) ==> ShapedBranch(n)
  {
    LeavesShape(names, kind);
  }

  /** No branch or category node of the built tree is empty, and its leaves
      are typed "skill" except under Certifications, where they are typed
      "certification". */
  lemma SkillTreeShape(data: SkillData)
    ensures forall n :: n in SkillTree(data).children ==> ShapedBranch(n)
  {
    var s := SkillsOf(data);
    TechnicalBranchShape(s.technical);
    BranchShape(SoftName, s.softSkills, "skill");
    BranchShape(DomainName, s.domains, "skill");
    BranchShape(CertificationName, s.certifications, "certification");
  }

  // ---------------------------------------------------------------------
  // Labels and a worked example

  /** The label of a category key: underscores become spaces, a letter after
      a non-letter becomes upper case, every other letter lower case. */
  lemma CategoryLabelAt(key: string)
    ensures |CategoryLabel(key)| == |key|
    ensures forall i :: 0 <= i < |key| ==>
      CategoryLabel(key)[i] ==
        if key[i] == '_' then ' '
        else if i > 0 && IsCased(key[i - 1]) then LowerChar(key[i])
        else UpperChar(key[i])
  {
    var r := ReplaceChar(key, '_', ' ');
    forall i | 0 <= i < |key|
      ensures CategoryLabel(key)[i] ==
        if key[i] == '_' then ' '
        else if i > 0 && IsCased(key[i - 1]) then LowerChar(key[i])
        else UpperChar(key[i])
    {
      if i > 0 {
        assert r[i - 1] == if key[i - 1] == '_' then ' ' else key[i - 1];
      }
    }
  }

  /** A key made of two lower-case words joined by `_` is shown as the two
      words, capitalised, separated by a space. */
  lemma TwoWordLabel(x: string, y: string)
    requires x != [] && forall i :: 0 <= i < |x| ==> IsLower(x[i])
    requires y != [] && forall i :: 0 <= i < |y| ==> IsLower(y[i])
    ensures CategoryLabel(x + "_" + y) == [UpperChar(x[0])] + x[1..] + " " + [UpperChar(y[0])] + y[1..]
  {
    ReplaceCharAround(x, y, '_', ' ');
    ReplaceCharAbsent(x, '_', ' ');
    ReplaceCharAbsent(y, '_', ' ');
    TitleAroundSpace(x, y);
    TitleLowerWord(x);
    TitleLowerWord(y);
  }

  /** A key made of two lower-case words, given with their capitalised
      forms, is shown as the capitalised words separated by a space. */
  lemma TwoWordLabelIs(x: string, y: string, bigX: string, bigY: string)
    requires x != [] && forall i :: 0 <= i < |x| ==> IsLower(x[i])
    requires y != [] && forall i :: 0 <= i < |y| ==> IsLower(y[i])
    requires bigX == [UpperChar(x[0])] + x[1..] && bigY == [UpperChar(y[0])] + y[1..]
    ensures CategoryLabel(x + "_" + y) == bigX + " " + bigY
  {
    TwoWordLabel(x, y);
  }

  /** Names a two-word string by its words. */
  lemma SplitWords(s: string, x: string, y: string, sep: char)
    requires |s| == |x| + 1 + |y| && s[..|x|] == x && s[|x|] == sep && s[|x| + 1..] == y
    ensures s == x + [sep] + y
  {
    assert s == s[..|x|] + [s[|x|]] + s[|x| + 1..];
  }

  /** "cloud_platforms" is shown as "Cloud Platforms". */
  lemma CloudPlatformsLabel()
    ensures CategoryLabel("cloud_platforms") == "Cloud Platforms"
  {
    assert CategoryLabel("cloud" + ['_'] + "platforms") == "Cloud" + [' '] + "Platforms" by {
      assert forall i :: 0 <= i < |"cloud"| ==> IsLower("cloud"[i]);
      assert forall i :: 0 <= i < |"platforms"| ==> IsLower("platforms"[i]);
      assert UpperChar('c') == 'C' && UpperChar('p') == 'P';
      assert "Cloud" == ['C'] + "cloud"[1..];
      assert "Platforms" == ['P'] + "platforms"[1..];
      TwoWordLabelIs("cloud", "platforms", "Cloud", "Platforms");
    }
    SplitWords("cloud_platforms", "cloud", "platforms", '_');
    SplitWords("Cloud Platforms", "Cloud", "Platforms", ' ');
  }

  /** "programming_languages" is shown as "Programming Languages". */
  lemma ProgrammingLanguagesLabel()
    ensures CategoryLabel("programming_languages") == "Programming Languages"
  {
    assert CategoryLabel("programming" + ['_'] + "languages") == "Programming" + [' '] + "Languages" by {
      assert forall i :: 0 <= i < |"programming"| ==> IsLower("programming"[i]);
      assert forall i :: 0 <= i < |"languages"| ==> IsLower("languages"[i]);
      assert UpperChar('p') == 'P' && UpperChar('l') == 'L';
      assert "Programming" == ['P'] + "programming"[1..];
      assert "Languages" == ['L'] + "languages"[1..];
      TwoWordLabelIs("programming", "languages", "Programming", "Languages");
    }
    SplitWords("programming_languages", "programming", "languages", '_');
    SplitWords("Programming Languages", "Programming", "Languages", ' ');
  }

  /** A record whose only content is one programming language gives the
      chain Skills, Technical Skills, Programming Languages, the leaf. */
  lemma SingleLanguageTree()
    ensures SkillTree(SkillData(Some(Skills([("programming_languages", ["Python"])], [], [], [])), map[], []))
      == Inner(RootName, [
           Inner(TechnicalName, [
             Inner("Programming Languages", [Leaf("Python", "skill")])])])
  {
    var cats: seq<Category> := [("programming_languages", ["Python"])];
    var category := Inner("Programming Languages", [Leaf("Python", "skill")]);
    ProgrammingLanguagesLabel();
    assert CategoryNode(cats[0]) == category by {
      assert Leaves(["Python"], "skill") == [Leaf("Python", "skill")];
    }
    assert CategoryNodes(cats) == [category] by {
      assert cats[..0] == [];
    }
  }
}
