/** `ProjectSpecification`: the predicates a project search is built from. */
module ProjectSpecification {
  import opened Wrappers
  import opened Text
  import opened Model

  /** `nameContains`: `lower(name) LIKE '%' || lower(keyword) || '%'`. */
  predicate NameContains(keyword: string, p: Project) {
    p.name.Some? && Contains(ToLower(p.name.value), ToLower(keyword))
  }

  /** `descriptionContains`: the same test on the description; a NULL description never matches. */
  predicate DescriptionContains(keyword: string, p: Project) {
    p.description.Some? && Contains(ToLower(p.description.value), ToLower(keyword))
  }

  /** `hasId`: `id = ?`. */
  predicate HasId(id: int, p: Project) { p.id == Some(id) }

  /** The containment tests hold exactly when the lowered keyword occurs in the lowered text. */
  lemma ContainsIffOccurs(keyword: string, p: Project)
    ensures NameContains(keyword, p)
      <==> p.name.Some? && exists i :: OccursAt(ToLower(p.name.value), ToLower(keyword), i)
    ensures DescriptionContains(keyword, p)
      <==> p.description.Some? && exists i :: OccursAt(ToLower(p.description.value), ToLower(keyword), i)
  {
    if p.name.Some? {
      ContainsIff(ToLower(p.name.value), ToLower(keyword));
    }
    if p.description.Some? {
      ContainsIff(ToLower(p.description.value), ToLower(keyword));
    }
  }

  /**
   * The keyword is lowercased but not trimmed: its case does not matter, and a
   * keyword with a leading space needs that space in the text.
   */
  lemma KeywordCaseNotSpace(keyword: string, p: Project)
    ensures NameContains(ToUpper(keyword), p) <==> NameContains(keyword, p)
    ensures DescriptionContains(ToUpper(keyword), p) <==> DescriptionContains(keyword, p)
    ensures p.description.None? ==> !DescriptionContains(keyword, p)
    ensures p.name == Some("abc") ==> !NameContains(" abc", p)
  {
    LowerOfCaseMapped(keyword);
    if p.name == Some("abc") {
      assert ToLower("abc") == "abc";
      assert ToLower(" abc") == " abc";
      ContainsIff("abc", " abc");
    }
  }
}
