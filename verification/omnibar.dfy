/**
 * The omnibar's item predicate: which node types stay listed while the user
 * types a query. Matching ignores letter case; an exact search compares the
 * whole label, a fuzzy one looks for the query anywhere in the label.
 */
module Omnibar {

  import opened JsString

  /**
   * An entry of the omnibar: its kind and the label (`label` in the editor)
   * shown and searched. The payload handed on when an item is chosen plays
   * no part in filtering and is left out.
   */
  datatype OmnibarItem = OmnibarItem(itemType: string, caption: string)

  /**
   * `filterNodeTypes`: an empty query keeps every item; otherwise the
   * lower-cased label must equal (exact search) or contain (fuzzy search)
   * the lower-cased query.
   */
  function FilterNodeTypes(query: string, item: OmnibarItem, exactMatch: bool): (matches: bool)
    ensures query == [] ==> matches
    ensures query != [] && exactMatch ==> (matches <==> ToLower(item.caption) == ToLower(query))
    ensures query != [] && !exactMatch ==> (matches <==> IsInfix(ToLower(query), ToLower(item.caption)))
  {
    var normalizedTitle := ToLower(item.caption);
    var normalizedQuery := ToLower(query);
    if query == [] then true
    else if exactMatch then normalizedTitle == normalizedQuery
    else IndexOf(normalizedTitle, normalizedQuery) >= 0
  }

  /** Letter case in the query makes no difference: a lower-cased query keeps the same items. */
  lemma QueryCaseIgnored(query: string, item: OmnibarItem, exactMatch: bool)
    ensures FilterNodeTypes(ToLower(query), item, exactMatch) == FilterNodeTypes(query, item, exactMatch)
  {
    ToLowerIdempotent(query);
  }

  /** An item kept by the exact search is also kept by the fuzzy one. */
  lemma ExactMatchIsAlsoFuzzy(query: string, item: OmnibarItem)
    requires FilterNodeTypes(query, item, true)
    ensures FilterNodeTypes(query, item, false)
  {
    if query != [] {
      PrefixIsInfix(ToLower(query), ToLower(item.caption));
    }
  }

  /** Typing one more character into a fuzzy query can only remove items from the list, never add them. */
  lemma TypingNarrowsFuzzySearch(query: string, c: char, item: OmnibarItem)
    requires FilterNodeTypes(query + [c], item, false)
    ensures FilterNodeTypes(query, item, false)
  {
    if query != [] {
      ToLowerAppend(query, [c]);
      PrefixIsInfix(ToLower(query), ToLower(query + [c]));
      InfixTransitive(ToLower(query), ToLower(query + [c]), ToLower(item.caption));
    }
  }
}
