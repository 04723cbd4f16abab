/** The data injection of `generate_html_visualization`: the serialized
    tree replaces the placeholder in the page template. */
module HtmlRender {
  import opened PyStr

  /** The placeholder the template holds once, in
      `const skillTreeData = SKILL_TREE_DATA;`. */
  const Marker := "SKILL_TREE_DATA"

  /** `html_template.replace('SKILL_TREE_DATA', skill_tree_json)` */
  function RenderHtml(template: string, treeJson: string): string
  {
    ReplaceAll(template, Marker, treeJson)
  }

  /** A template holding the placeholder once yields the template with the
      serialized tree in the placeholder's place; the rest of the template
      is unchanged, and the inserted text is taken as it is even when it
      contains the placeholder itself. */
  lemma RenderEmbedsTree(prefix: string, suffix: string, treeJson: string)
    requires forall i :: OccursAt(prefix + Marker + suffix, Marker, i) ==> i == |prefix|
    ensures RenderHtml(prefix + Marker + suffix, treeJson) == prefix + treeJson + suffix
  {
    ReplaceSingle(prefix, Marker, suffix, treeJson);
  }

  /** A template without the placeholder is written out unchanged. */
  lemma RenderWithoutMarker(template: string, treeJson: string)
    requires !Contains(template, Marker)
    ensures RenderHtml(template, treeJson) == template
  {
    ReplaceAbsent(template, Marker, treeJson);
  }
}
