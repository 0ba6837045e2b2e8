/**
 * The rendered page as the scraper sees it through the browser driver: the
 * elements in document order, each with its tag name, its attributes, its
 * visible text and, for a `select`, its options. Every `find_element` of the
 * driver becomes a total function that gives the index of the first element
 * in document order that satisfies a locator, or `None` where the driver
 * would raise `NoSuchElementException`.
 */
module Dom {
  import opened Wrappers
  import opened Text

  /** An `option` of a `select`: its `value` attribute (if any) and its visible text. */
  datatype Choice = Choice(value: Option<string>, caption: string)

  /** Tag names are kept in lower case, as HTML parsers report them. */
  datatype Element = Element(tag: string, attrs: map<string, string>, text: string, options: seq<Choice>)

  type Page = seq<Element>

  /** `get_attribute(name)`: `None` when the element has no such attribute. */
  function Attr(e: Element, name: string): (r: Option<string>)
    ensures r.Some? <==> name in e.attrs
    ensures r.Some? ==> r.value == e.attrs[name]
  {
    if name in e.attrs then Some(e.attrs[name]) else None
  }

  /** How a CSS attribute selector compares the attribute's value. */
  datatype AttrTest =
    | HasSubstring(needle: string)  // `[attr*="needle"]`: case-sensitive substring
    | IsKeyword(keyword: string)    // `[type="keyword"]`: whole value; `type` values compare ASCII case-insensitively in HTML

  /** A locator the scraper hands to the driver. */
  datatype Rule =
    | Css(tag: string, attr: string, test: AttrTest)  // `tag[attr*="..."]` or `tag[attr="..."]`
    | PartialLinkText(words: string)                  // `By.PARTIAL_LINK_TEXT`

  predicate TestHolds(test: AttrTest, v: string) {
    match test
    case HasSubstring(needle) => Contains(v, needle)
    case IsKeyword(keyword) => Lower(v) == keyword
  }

  predicate Matches(r: Rule, e: Element) {
    match r
    case Css(tag, attr, test) => e.tag == tag && attr in e.attrs && TestHolds(test, e.attrs[attr])
    case PartialLinkText(words) => e.tag == "a" && Contains(e.text, words)
  }

  /** `find_element(rule)`: the first element in document order that the rule matches. */
  function FindElement(r: Rule, page: Page): (i: Option<nat>)
    ensures i.Some? ==> i.value < |page| && Matches(r, page[i.value])
    ensures i.Some? ==> forall j :: 0 <= j < i.value ==> !Matches(r, page[j])
    ensures i.None? <==> forall j :: 0 <= j < |page| ==> !Matches(r, page[j])
  {
    FirstIndex(page, (e: Element) => Matches(r, e))
  }

  /** `find_element(By.NAME, name)`: the first element whose `name` attribute is exactly `name`. */
  function FindByName(page: Page, name: string): (i: Option<nat>)
    ensures i.Some? ==> i.value < |page| && Attr(page[i.value], "name") == Some(name)
    ensures i.Some? ==> forall j :: 0 <= j < i.value ==> Attr(page[j], "name") != Some(name)
    ensures i.None? <==> forall j :: 0 <= j < |page| ==> Attr(page[j], "name") != Some(name)
  {
    FirstIndex(page, (e: Element) => Attr(e, "name") == Some(name))
  }

  /** Which candidate locator succeeded and the element it found. */
  datatype Hit = Hit(rule: nat, element: nat)

  /**
   * The candidate-list idiom of the scraper: try the rules in list order and
   * stop at the first one that finds an element; that rule's first element
   * in document order is the result.
   */
  function Locate(rules: seq<Rule>, page: Page): (h: Option<Hit>)
    ensures h.Some? ==> h.value.rule < |rules| && h.value.element < |page|
    ensures h.Some? ==> Matches(rules[h.value.rule], page[h.value.element])
    ensures h.Some? ==> forall e :: 0 <= e < h.value.element ==> !Matches(rules[h.value.rule], page[e])
    ensures h.Some? ==> forall k, e :: 0 <= k < h.value.rule && 0 <= e < |page| ==> !Matches(rules[k], page[e])
    ensures h.None? <==> forall k, e :: 0 <= k < |rules| && 0 <= e < |page| ==> !Matches(rules[k], page[e])
  {
    match FirstIndex(rules, (r: Rule) => FindElement(r, page).Some?)
    case None => None
    case Some(k) => Some(Hit(k, FindElement(rules[k], page).value))
  }

  /** No rule of the list matches any element of the page. */
  ghost predicate NothingMatches(rules: seq<Rule>, page: Page) {
    forall k, e :: 0 <= k < |rules| && 0 <= e < |page| ==> !Matches(rules[k], page[e])
  }

  /** Element `e` of the page is matched by some rule of the list. */
  ghost predicate MatchedBy(rules: seq<Rule>, page: Page, e: nat) {
    e < |page| && exists k :: 0 <= k < |rules| && Matches(rules[k], page[e])
  }

  /** Locate finds nothing exactly when no rule matches, and otherwise an element some rule matches. */
  lemma LocateFound(rules: seq<Rule>, page: Page)
    ensures Locate(rules, page).None? <==> NothingMatches(rules, page)
    ensures Locate(rules, page).Some? ==> MatchedBy(rules, page, Locate(rules, page).value.element)
  {
  }

  /** Locate stops at the first rule, in list order, that finds an element. */
  lemma LocateAt(rules: seq<Rule>, page: Page, i: nat)
    requires i <= |rules|
    requires forall k :: 0 <= k < i ==> FindElement(rules[k], page).None?
    ensures i < |rules| && FindElement(rules[i], page).Some? ==>
      Locate(rules, page) == Some(Hit(i, FindElement(rules[i], page).value))
    ensures i == |rules| ==> Locate(rules, page).None?
  {
    FirstIndexAt(rules, (r: Rule) => FindElement(r, page).Some?, i);
  }

  /** First match wins: candidates listed after a successful one are never consulted. */
  lemma {:induction false} LocateIgnoresLaterRules(rules: seq<Rule>, more: seq<Rule>, page: Page)
    requires Locate(rules, page).Some?
    ensures Locate(rules + more, page) == Locate(rules, page)
  {
    var h := Locate(rules, page).value;
    assert (rules + more)[h.rule] == rules[h.rule];
    assert forall k :: 0 <= k < |rules| ==> (rules + more)[k] == rules[k];
    var h' := Locate(rules + more, page).value;
    assert h'.rule == h.rule;
  }
}
