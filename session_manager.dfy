/**
 * `SessionManager`: logs in to the ASP.NET site and moves to the data page.
 * The object keeps the site's hidden form state (`__VIEWSTATE`,
 * `__EVENTVALIDATION`) in two fields. The login form's fields and button and
 * the navigation link are found by trying ordered lists of candidate locators.
 *
 * Pages are given as data: `page` is the page the browser shows when a method
 * starts; a page reached by a click and the URL after submitting the login
 * form are parameters.
 */
module Session {
  import opened Wrappers
  import opened Text
  import opened Dom

  const BaseUrl: string := "https://cloud.e-smbg.net/"

  /** `possible_username_selectors`, in the order they are tried. */
  const UsernameSelectors: seq<Rule> := [
    Css("input", "name", HasSubstring("user")), Css("input", "id", HasSubstring("user")),
    Css("input", "name", HasSubstring("User")), Css("input", "id", HasSubstring("User")),
    Css("input", "name", HasSubstring("login")), Css("input", "id", HasSubstring("login")),
    Css("input", "name", HasSubstring("Login")), Css("input", "id", HasSubstring("Login")),
    Css("input", "name", HasSubstring("id")), Css("input", "id", HasSubstring("id")),
    Css("input", "type", IsKeyword("text"))
  ]

  /** `possible_password_selectors`, in the order they are tried. */
  const PasswordSelectors: seq<Rule> := [
    Css("input", "name", HasSubstring("pass")), Css("input", "id", HasSubstring("pass")),
    Css("input", "name", HasSubstring("Pass")), Css("input", "id", HasSubstring("Pass")),
    Css("input", "name", HasSubstring("password")), Css("input", "id", HasSubstring("password")),
    Css("input", "name", HasSubstring("Password")), Css("input", "id", HasSubstring("Password")),
    Css("input", "type", IsKeyword("password"))
  ]

  /** `possible_button_selectors`, in the order they are tried. */
  const SubmitSelectors: seq<Rule> := [
    Css("input", "type", IsKeyword("submit")),
    Css("button", "type", IsKeyword("submit")),
    Css("input", "value", HasSubstring("ログイン")),
    Css("input", "value", HasSubstring("Login")),
    Css("button", "name", HasSubstring("login")),
    Css("button", "id", HasSubstring("login"))
  ]

  /** `possible_link_texts` of `navigate_to_data_page`, in the order they are tried. */
  const LinkTexts: seq<string> :=
    ["血糖値", "血糖", "データ", "記録", "履歴", "測定値", "Blood Sugar", "Data", "Records", "History", "Measurements"]

  const LinkRules: seq<Rule> := seq(|LinkTexts|, i requires 0 <= i < |LinkTexts| => PartialLinkText(LinkTexts[i]))

  /**
   * One candidate loop of `login` or `navigate_to_data_page`: try each
   * locator in turn and stop at the first that finds an element.
   */
  method FindFirst(rules: seq<Rule>, page: Page) returns (hit: Option<Hit>)
    ensures hit == Locate(rules, page)
  {
    var i := 0;
    while i < |rules|
      invariant 0 <= i <= |rules|
      invariant forall k :: 0 <= k < i ==> FindElement(rules[k], page).None?
    {
      var found := FindElement(rules[i], page);
      if found.Some? {
        LocateAt(rules, page, i);
        return Some(Hit(i, found.value));
      }
      i := i + 1;
    }
    LocateAt(rules, page, |rules|);
    return None;
  }

  /** The success test of `login`: the browser left the start page and is not on a login page. */
  predicate LoginSucceeded(url: string, base: string)
    ensures LoginSucceeded(url, base) <==>
      url != base && forall i, j :: 0 <= i <= j <= |url| && j - i == 5 ==> Lower(url[i..j]) != "login"
  {
    ContainsLower(url, "login");
    url != base && !Contains(Lower(url), "login")
  }

  /** What `login` does with the form it finds. */
  datatype Submission =
    | FieldsNotFound                                          // returns False; nothing typed or submitted
    | ClickedButton(username: nat, password: nat, button: nat)
    | PressedEnter(username: nat, password: nat)              // Enter in the password field

  /** The form handling of `login` on a page. */
  function LoginSubmission(page: Page): (r: Submission)
    ensures r.FieldsNotFound? <==> NothingMatches(UsernameSelectors, page) || NothingMatches(PasswordSelectors, page)
    ensures !r.FieldsNotFound? ==> MatchedBy(UsernameSelectors, page, r.username) && MatchedBy(PasswordSelectors, page, r.password)
    ensures r.ClickedButton? ==> MatchedBy(SubmitSelectors, page, r.button)
    ensures r.PressedEnter? ==> NothingMatches(SubmitSelectors, page)
  {
    LocateFound(UsernameSelectors, page);
    LocateFound(PasswordSelectors, page);
    LocateFound(SubmitSelectors, page);
    var user := Locate(UsernameSelectors, page);
    var pass := Locate(PasswordSelectors, page);
    if user.None? || pass.None? then FieldsNotFound
    else
      match Locate(SubmitSelectors, page)
      case Some(button) => ClickedButton(user.value.element, pass.value.element, button.element)
      case None => PressedEnter(user.value.element, pass.value.element)
  }

  /** The `value` of the first element named `__EVENTVALIDATION`, or `None` when there is none. */
  function EventValidation(page: Page): (r: Option<string>)
    ensures FindByName(page, "__EVENTVALIDATION").None? ==> r.None?
    ensures FindByName(page, "__EVENTVALIDATION").Some? ==>
      r == Attr(page[FindByName(page, "__EVENTVALIDATION").value], "value")
  {
    match FindByName(page, "__EVENTVALIDATION")
    case None => None
    case Some(i) => Attr(page[i], "value")
  }

  class SessionManager {
    const baseUrl: string
    var viewstate: Option<string>
    var eventvalidation: Option<string>

    constructor()
      ensures baseUrl == BaseUrl && viewstate.None? && eventvalidation.None?
    {
      baseUrl := BaseUrl;
      viewstate := None;
      eventvalidation := None;
    }

    /**
     * `get_aspnet_params`: without a `__VIEWSTATE` element nothing changes and
     * the answer is false; otherwise both fields are read afresh.
     */
    method GetAspnetParams(page: Page) returns (ok: bool)
      modifies this
      ensures ok <==> FindByName(page, "__VIEWSTATE").Some?
      ensures ok ==> viewstate == Attr(page[FindByName(page, "__VIEWSTATE").value], "value")
      ensures ok ==> eventvalidation == EventValidation(page)
      ensures !ok ==> viewstate == old(viewstate) && eventvalidation == old(eventvalidation)
    {
      var vs := FindByName(page, "__VIEWSTATE");
      if vs.None? {
        return false;
      }
      viewstate := Attr(page[vs.value], "value");
      var ev := FindByName(page, "__EVENTVALIDATION");
      if ev.Some? {
        eventvalidation := Attr(page[ev.value], "value");
      } else {
        eventvalidation := None;
      }
      return true;
    }

    /**
     * `login` on the login page `page`; `urlAfterSubmit` is the browser's URL
     * once the form has been submitted.
     */
    method Login(page: Page, urlAfterSubmit: string) returns (ok: bool, submission: Submission)
      modifies this
      ensures submission == LoginSubmission(page)
      ensures submission.FieldsNotFound? ==> !ok
      ensures ok <==> !submission.FieldsNotFound? && LoginSucceeded(urlAfterSubmit, baseUrl)
      ensures FindByName(page, "__VIEWSTATE").Some? ==>
        viewstate == Attr(page[FindByName(page, "__VIEWSTATE").value], "value") && eventvalidation == EventValidation(page)
      ensures FindByName(page, "__VIEWSTATE").None? ==>
        viewstate == old(viewstate) && eventvalidation == old(eventvalidation)
    {
      var _ := GetAspnetParams(page);
      var user := FindFirst(UsernameSelectors, page);
      var pass := FindFirst(PasswordSelectors, page);
      if user.None? || pass.None? {
        return false, FieldsNotFound;
      }
      var button := FindFirst(SubmitSelectors, page);
      if button.Some? {
        submission := ClickedButton(user.value.element, pass.value.element, button.value.element);
      } else {
        submission := PressedEnter(user.value.element, pass.value.element);
      }
      ok := LoginSucceeded(urlAfterSubmit, baseUrl);
    }

    /**
     * `navigate_to_data_page` from `page`; `nextPage` is the page the click
     * leads to, whose hidden state is then read.
     */
    method NavigateToDataPage(page: Page, nextPage: Page) returns (ok: bool, clicked: Option<nat>)
      modifies this
      ensures ok <==> Locate(LinkRules, page).Some?
      ensures ok ==> clicked == Some(Locate(LinkRules, page).value.element)
      ensures !ok ==> clicked.None? && viewstate == old(viewstate) && eventvalidation == old(eventvalidation)
      ensures ok && FindByName(nextPage, "__VIEWSTATE").Some? ==>
        viewstate == Attr(nextPage[FindByName(nextPage, "__VIEWSTATE").value], "value")
        && eventvalidation == EventValidation(nextPage)
      ensures ok && FindByName(nextPage, "__VIEWSTATE").None? ==>
        viewstate == old(viewstate) && eventvalidation == old(eventvalidation)
    {
      var link := FindFirst(LinkRules, page);
      if link.None? {
        return false, None;
      }
      clicked := Some(link.value.element);
      var _ := GetAspnetParams(nextPage);
      ok := true;
    }
  }

  /** The login test fails for any URL that names a login page, in any letter case. */
  lemma LoginPageMeansFailure(prefix: string, word: string, suffix: string, base: string)
    requires Lower(word) == "login"
    ensures !LoginSucceeded(prefix + word + suffix, base)
  {
    var url := prefix + word + suffix;
    assert Lower(url)[|prefix|..|prefix| + 5] == Lower(word);
    assert OccursAt(Lower(url), "login", |prefix|);
  }

  /** A rule searching for a word matches wherever a rule searching for a longer word does. */
  lemma LongerNeedleImplies(e: Element, attr: string, short: string, rest: string)
    requires Matches(Css("input", attr, HasSubstring(short + rest)), e)
    ensures Matches(Css("input", attr, HasSubstring(short)), e)
  {
    ContainsPrefix(e.attrs[attr], short, rest);
  }

  /** Each `password` selector matches only where the `pass` selector four places earlier matches too. */
  lemma PasswordImpliesPass(e: Element)
    ensures Matches(PasswordSelectors[4], e) ==> Matches(PasswordSelectors[0], e)
    ensures Matches(PasswordSelectors[5], e) ==> Matches(PasswordSelectors[1], e)
    ensures Matches(PasswordSelectors[6], e) ==> Matches(PasswordSelectors[2], e)
    ensures Matches(PasswordSelectors[7], e) ==> Matches(PasswordSelectors[3], e)
  {
    assert "pass" + "word" == "password" && "Pass" + "word" == "Password";
    if Matches(PasswordSelectors[4], e) {
      LongerNeedleImplies(e, "name", "pass", "word");
    }
    if Matches(PasswordSelectors[5], e) {
      LongerNeedleImplies(e, "id", "pass", "word");
    }
    if Matches(PasswordSelectors[6], e) {
      LongerNeedleImplies(e, "name", "Pass", "word");
    }
    if Matches(PasswordSelectors[7], e) {
      LongerNeedleImplies(e, "id", "Pass", "word");
    }
  }

  /**
   * The `password` selectors never decide: a `name` or `id` containing
   * "password" (or "Password") also contains "pass" (or "Pass"), whose
   * selector comes earlier.
   */
  lemma PasswordSelectorsShadowed(page: Page)
    requires Locate(PasswordSelectors, page).Some?
    ensures Locate(PasswordSelectors, page).value.rule !in {4, 5, 6, 7}
  {
    var h := Locate(PasswordSelectors, page).value;
    PasswordImpliesPass(page[h.element]);
  }

  /** Attribute tests are case-sensitive: an input named like "UserName" is found by the third selector, `name*="User"`. */
  lemma CaseSensitiveUsername(field: Element)
    requires field.tag == "input" && field.attrs.Keys == {"name"}
    requires Contains(field.attrs["name"], "User") && !Contains(field.attrs["name"], "user")
    ensures Locate(UsernameSelectors, [field]) == Some(Hit(2, 0))
  {
    assert !Matches(UsernameSelectors[0], field);
    assert !Matches(UsernameSelectors[1], field);
    assert Matches(UsernameSelectors[2], field);
  }

  /** `type="text"` is the last resort: an input with only a type attribute, "text" in any case, is found by the last selector. */
  lemma PlainTextInputLastResort(field: Element)
    requires field.tag == "input" && field.attrs.Keys == {"type"} && Lower(field.attrs["type"]) == "text"
    ensures Locate(UsernameSelectors, [field]) == Some(Hit(10, 0))
  {
    forall k | 0 <= k < 10 ensures !Matches(UsernameSelectors[k], field) {
      assert UsernameSelectors[k].attr in {"name", "id"};
    }
    assert Matches(UsernameSelectors[10], field);
  }

  /** Keyword order, not page order, decides the link: a "血糖値" link wins over an earlier link without it. */
  lemma KeywordOrderBeatsPageOrder(page: Page)
    requires |page| == 2 && page[0].tag == "a" && page[1].tag == "a"
    requires !Contains(page[0].text, "血糖値") && Contains(page[1].text, "血糖値")
    ensures Locate(LinkRules, page) == Some(Hit(0, 1))
  {
    assert LinkRules[0] == PartialLinkText("血糖値");
  }
}
