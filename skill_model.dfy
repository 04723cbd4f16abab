/** The structured skill record the classifier produces, and the named tree
    the builder derives from it. */
module SkillModel {
  import opened Wrappers

  /** One of the proficiency levels an experience entry may name. */
  datatype Level = Beginner | Intermediate | Advanced | Expert

  /** The kind of a relationship between two skills. */
  datatype RelationKind = Prerequisite | Related | Specialization

  datatype Relationship = Relationship(parent: string, child: string, kind: RelationKind)

  /** One technical category: its key (such as "programming_languages") and
      its skill names, in the record's order. */
  type Category = (string, seq<string>)

  /** The `skills` object of a record.  `technical` keeps the key order of
      the source dictionary; a missing list is the empty list. */
  datatype Skills = Skills(
    technical: seq<Category>,
    softSkills: seq<string>,
    domains: seq<string>,
    certifications: seq<string>)

  /** A classified record.  `skills` is `None` when the record has no
      `skills` key at all. */
  datatype SkillData = SkillData(
    skills: Option<Skills>,
    experienceLevels: map<string, Level>,
    relationships: seq<Relationship>)

  /** A tree node.  The builder makes two shapes of dictionary: a leaf
      `{"name", "type"}` with no `children` key, and an inner node
      `{"name", "children"}` with no `type` key and a (possibly empty)
      children list. */
  datatype Node =
    | Leaf(name: string, kind: string)
    | Inner(name: string, children: seq<Node>)

  /** `skill_data.get("skills", {})` with every missing list read as empty. */
  function SkillsOf(data: SkillData): Skills
  {
    if data.skills.Some? then data.skills.value else Skills([], [], [], [])
  }
}
