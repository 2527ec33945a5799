/** The small rules of the main page script: the theme and language toggle
    buttons, how a bilingual element picks its text, the disposable-address
    guard in front of the auth forms, and which course card a search term
    highlights. */
module Page {
  import opened Options
  import opened Text
  import Validation

  /* ---------- toggles ---------- */

  /** `localStorage.getItem(key) || def`: the stored value unless it is
      missing or empty. */
  function StoredOr(stored: Option<string>, def: string): (v: string)
    ensures stored.Some? && stored.value != "" ==> v == stored.value
    ensures stored.None? || stored.value == "" ==> v == def
  {
    if stored.None? || stored.value == "" then def else stored.value
  }

  /** The theme at start-up, dark by default. */
  function InitialTheme(stored: Option<string>): (t: string)
    ensures t != ""
    ensures t == "dark" <==> stored.None? || stored.value == "" || stored.value == "dark"
  {
    StoredOr(stored, "dark")
  }

  /** The language at start-up, English by default. */
  function InitialLanguage(stored: Option<string>): (l: string)
    ensures l != ""
    ensures l == "en" <==> stored.None? || stored.value == "" || stored.value == "en"
  {
    StoredOr(stored, "en")
  }

  /** A two-state button: `from` becomes `to`, anything else becomes `from`. */
  function Flip(v: string, from: string, to: string): (r: string)
    requires from != to
    ensures r == from || r == to
    ensures r == to <==> v == from
  {
    if v == from then to else from
  }

  /** Two presses give the value back exactly for the button's two states;
      from the first press on, the button alternates between them. */
  lemma FlipTwice(v: string, from: string, to: string)
    requires from != to
    ensures Flip(Flip(v, from, to), from, to) == v <==> v == from || v == to
    ensures Flip(Flip(Flip(v, from, to), from, to), from, to) == Flip(v, from, to)
  {
  }

  /** The theme button and Ctrl+T: dark becomes light, anything else dark. */
  function ToggleTheme(theme: string): (t: string)
    ensures t == "dark" || t == "light"
    ensures t == "light" <==> theme == "dark"
  {
    Flip(theme, "dark", "light")
  }

  /** The language button and Ctrl+L: English becomes Arabic, anything else English. */
  function ToggleLanguage(lang: string): (l: string)
    ensures l == "en" || l == "ar"
    ensures l == "ar" <==> lang == "en"
  {
    Flip(lang, "en", "ar")
  }

  lemma ThemeToggleInvolution(theme: string)
    ensures ToggleTheme(ToggleTheme(theme)) == theme <==> theme == "dark" || theme == "light"
    ensures ToggleTheme(ToggleTheme(ToggleTheme(theme))) == ToggleTheme(theme)
  {
    FlipTwice(theme, "dark", "light");
  }

  lemma LanguageToggleInvolution(lang: string)
    ensures ToggleLanguage(ToggleLanguage(lang)) == lang <==> lang == "en" || lang == "ar"
    ensures ToggleLanguage(ToggleLanguage(ToggleLanguage(lang))) == ToggleLanguage(lang)
  {
    FlipTwice(lang, "en", "ar");
  }

  /* ---------- bilingual elements ---------- */

  /** An element carrying `data-en` and/or `data-ar`. */
  datatype Element = Element(text: string, dataEn: Option<string>, dataAr: Option<string>)

  /** `updateLanguageElements`: Arabic text for 'ar' and English text for
      'en', each only when the attribute is present and non-empty; otherwise
      the element keeps what it shows. */
  function LocalizedText(el: Element, lang: string): (t: string)
    ensures lang == "ar" && el.dataAr.Some? && el.dataAr.value != "" ==> t == el.dataAr.value
    ensures lang == "en" && el.dataEn.Some? && el.dataEn.value != "" ==> t == el.dataEn.value
    ensures !(lang == "ar" && el.dataAr.GetOr("") != "") && !(lang == "en" && el.dataEn.GetOr("") != "") ==>
              t == el.text
  {
    var en := el.dataEn.GetOr("");
    var ar := el.dataAr.GetOr("");
    if lang == "ar" && ar != "" then ar
    else if lang == "en" && en != "" then en
    else el.text
  }

  /** The same rule in the site script's `applyLanguage`: the attribute of
      the chosen language (Arabic for 'ar', English for anything else) is used
      whenever it is present, even when empty. */
  function SiteLocalizedText(el: Element, lang: string): (t: string)
    ensures t == el.text || Some(t) == el.dataAr || Some(t) == el.dataEn
    ensures lang == "ar" && el.dataAr.Some? ==> t == el.dataAr.value
    ensures lang != "ar" && el.dataEn.Some? ==> t == el.dataEn.value
    ensures (if lang == "ar" then el.dataAr else el.dataEn).None? ==> t == el.text
  {
    var attr := if lang == "ar" then el.dataAr else el.dataEn;
    if attr.Some? then attr.value else el.text
  }

  /** Every element of the page, updated. */
  function UpdateLanguageElements(els: seq<Element>, lang: string): (r: seq<Element>)
    ensures |r| == |els|
    ensures forall i :: 0 <= i < |els| ==>
              r[i] == els[i].(text := LocalizedText(els[i], lang))
  {
    seq(|els|, i requires 0 <= i < |els| => els[i].(text := LocalizedText(els[i], lang)))
  }

  /** Updating twice for the same language changes nothing more. */
  lemma UpdateIdempotent(els: seq<Element>, lang: string)
    ensures UpdateLanguageElements(UpdateLanguageElements(els, lang), lang)
         == UpdateLanguageElements(els, lang)
  {
  }

  /** The two scripts agree on 'en' and 'ar' whenever the chosen attribute
      holds text, and only differ otherwise. */
  lemma BilingualRulesAgree(el: Element, lang: string)
    requires lang == "en" || lang == "ar"
    requires var attr := if lang == "ar" then el.dataAr else el.dataEn; attr.Some? && attr.value != ""
    ensures LocalizedText(el, lang) == SiteLocalizedText(el, lang)
  {
  }

  /** Where they part: an empty Arabic attribute blanks the element in the
      site script but is ignored by the page script, and a third language
      shows English in one and leaves the text alone in the other. */
  lemma BilingualRulesDiffer(text: string, en: string)
    requires text != "" && en != "" && text != en
    ensures var el := Element(text, Some(en), Some(""));
            LocalizedText(el, "ar") == text && SiteLocalizedText(el, "ar") == ""
    ensures var el := Element(text, Some(en), None);
            LocalizedText(el, "fr") == text && SiteLocalizedText(el, "fr") == en
  {
  }

  /* ---------- disposable addresses ---------- */

  const DisposableDomains: set<string> := {
    "mailinator.com", "guerrillamail.com", "10minutemail.com", "tempmail.com",
    "yopmail.com", "trashmail.com", "sharklasers.com", "getnada.com",
    "maildrop.cc", "dispostable.com", "fakeinbox.com"
  }

  /** `isDisposable`: the lower-cased address must split on '@' into exactly
      two pieces, and the second must not be a blocked domain. */
  function IsDisposable(email: string): (disposable: bool)
    ensures multiset(email)['@'] != 1 ==> disposable
  {
    LowerKeepsCount(email, '@');
    var parts := Split(Lower(email), '@');
    |parts| != 2 || parts[1] in DisposableDomains
  }

  /** Any number of '@' other than one makes an address disposable. */
  lemma DisposableUnlessOneAt(email: string)
    ensures multiset(email)['@'] != 1 ==> IsDisposable(email)
  {
    LowerKeepsCount(email, '@');
  }

  /** With exactly one '@', at offset k, the verdict is the blocklist's
      verdict on the lower-cased part after it. */
  lemma DisposableIffBlockedDomain(email: string, k: int)
    requires 0 <= k < |email| && email[k] == '@' && multiset(email)['@'] == 1
    ensures IsDisposable(email) <==> Lower(email[k + 1..]) in DisposableDomains
  {
    var local, domain := email[..k], email[k + 1..];
    OnlyAtSplits(email, k);
    LowerAround(local, domain);
    assert email == local + ['@'] + domain;
    SplitPiece(Lower(local), Lower(domain), '@');
    SplitWithoutSeparator(Lower(domain), '@');
  }

  /** With a single '@' at offset `k`, neither side holds another. */
  lemma OnlyAtSplits(email: string, k: int)
    requires 0 <= k < |email| && email[k] == '@' && multiset(email)['@'] == 1
    ensures email == email[..k] + ['@'] + email[k + 1..]
    ensures '@' !in email[..k] && '@' !in email[k + 1..]
  {
    var local, domain := email[..k], email[k + 1..];
    assert email == local + ['@'] + domain;
    assert multiset(email) == multiset(local) + multiset{'@'} + multiset(domain);
    assert '@' !in local by { assert multiset(local)['@'] == 0; }
    assert '@' !in domain by { assert multiset(domain)['@'] == 0; }
  }

  /** Lower-casing keeps the '@' where it is and adds none on either side. */
  lemma LowerAround(local: string, domain: string)
    requires '@' !in local && '@' !in domain
    ensures Lower(local + ['@'] + domain) == Lower(local) + ['@'] + Lower(domain)
    ensures '@' !in Lower(local) && '@' !in Lower(domain)
  {
    LowerConcat(local + ['@'], domain);
    LowerConcat(local, ['@']);
    assert Lower(['@']) == ['@'];
    LowerKeepsCount(local, '@');
    LowerKeepsCount(domain, '@');
    assert '@' !in Lower(local) by { assert multiset(Lower(local))['@'] == 0; }
    assert '@' !in Lower(domain) by { assert multiset(Lower(domain))['@'] == 0; }
  }

  /** For an address the sign-in form's validator accepts, the guard reduces
      to the blocklist check on its domain. */
  lemma ValidAddressDisposableIff(email: string)
    requires Validation.EmailShape(email)
    ensures exists k :: 0 <= k < |email| && email[k] == '@' &&
              (IsDisposable(email) <==> Lower(email[k + 1..]) in DisposableDomains)
  {
    Validation.EmailShapeParts(email);
    var k :| 0 <= k < |email| && email[k] == '@' && Validation.DottedDomain(email[k + 1..]);
    DisposableIffBlockedDomain(email, k);
  }

  /** The submit guard: the trimmed address must be present and not disposable. */
  function GuardRejects(raw: string): (rejected: bool)
    ensures Trim(raw) == "" ==> rejected
    ensures multiset(Trim(raw))['@'] != 1 ==> rejected
  {
    DisposableUnlessOneAt(Trim(raw));
    var email := Trim(raw);
    email == "" || IsDisposable(email)
  }

  /** An address the e-mail validator accepts gets past the guard exactly when
      its domain is not on the blocklist. */
  lemma AcceptedAddressGuard(raw: string)
    requires Validation.ValidateEmail(raw) == Validation.Accepted
    ensures exists k :: 0 <= k < |Trim(raw)| && Trim(raw)[k] == '@' &&
              (GuardRejects(raw) <==> Lower(Trim(raw)[k + 1..]) in DisposableDomains)
  {
    ValidAddressDisposableIff(Trim(raw));
  }

  /* ---------- course highlight ---------- */

  /** One of the six course keywords occurs in `s`. */
  predicate Keyword(s: string) {
    || Contains(s, "web") || Contains(s, "mobile") || Contains(s, "ai")
    || Contains(s, "cyber") || Contains(s, "data") || Contains(s, "game")
  }

  /** `highlightCourse`'s match: one of six keywords in the search term and
      the same keyword (or, for "ai", also "machine") in the card title, both
      compared in lower case. */
  predicate Highlight(search: string, title: string): (lit: bool)
    ensures lit ==> Keyword(Lower(search))
    ensures lit ==> Keyword(Lower(title)) || Contains(Lower(title), "machine")
  {
    var s := Lower(search);
    var t := Lower(title);
    || (Contains(s, "web") && Contains(t, "web"))
    || (Contains(s, "mobile") && Contains(t, "mobile"))
    || (Contains(s, "ai") && (Contains(t, "ai") || Contains(t, "machine")))
    || (Contains(s, "cyber") && Contains(t, "cyber"))
    || (Contains(s, "data") && Contains(t, "data"))
    || (Contains(s, "game") && Contains(t, "game"))
  }

  /** The match ignores case on both sides. */
  lemma HighlightIgnoresCase(search: string, title: string)
    ensures Highlight(Lower(search), Lower(title)) == Highlight(search, title)
  {
    LowerIdempotent(search);
    LowerIdempotent(title);
  }

  /** Typing more around a search term never un-highlights a card. */
  lemma HighlightSurvivesLongerSearch(x: string, search: string, y: string, title: string)
    requires Highlight(search, title)
    ensures Highlight(x + search + y, title)
  {
    var s := Lower(search);
    LowerConcat(x + search, y);
    LowerConcat(x, search);
    assert Lower(x + search + y) == Lower(x) + s + Lower(y);
    forall k: string | Contains(s, k)
      ensures Contains(Lower(x) + s + Lower(y), k)
    {
      ContainsWithin(Lower(x), s, Lower(y), k);
    }
  }

  /** "ai" is matched as a bare substring, so a search for "email" highlights
      every card whose title mentions "machine". */
  lemma EmailSearchHighlightsMachineLearning(title: string)
    requires Contains(Lower(title), "machine")
    ensures Highlight("email", title)
  {
    var s := Lower("email");
    assert s == "email";
    assert s[2..4] == "ai";
    ContainsAt(s, "ai", 2);
  }
}
