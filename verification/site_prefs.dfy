/** The instant-apply preferences of the site script: each control writes a
    `pref_*` key of local storage and updates the page; page load reads
    every key back with its default and applies it again. */
module SitePrefs {
  import opened Options

  /** The local-storage strings the preferences live in. */
  type Prefs = map<string, string>

  const ThemeKey := "pref_theme"
  const LangKey := "pref_lang"
  const ReduceMotionKey := "pref_reduce_motion"
  const FontSizeKey := "pref_font_size"
  const AccentKey := "pref_accent"
  const BgThemeKey := "pref_bg_theme"
  const PrefKeys: set<string> := {ThemeKey, LangKey, ReduceMotionKey, FontSizeKey, AccentKey, BgThemeKey}

  /** The six keys are different strings (they differ right after the
      `pref_` prefix), so writing one never touches another. */
  lemma KeysDistinct()
    ensures ThemeKey != LangKey && ThemeKey != ReduceMotionKey && ThemeKey != FontSizeKey
    ensures ThemeKey != AccentKey && ThemeKey != BgThemeKey
    ensures LangKey != ReduceMotionKey && LangKey != FontSizeKey && LangKey != AccentKey && LangKey != BgThemeKey
    ensures ReduceMotionKey != FontSizeKey && ReduceMotionKey != AccentKey && ReduceMotionKey != BgThemeKey
    ensures FontSizeKey != AccentKey && FontSizeKey != BgThemeKey && AccentKey != BgThemeKey
  {
    assert ThemeKey[5] == 't' && LangKey[5] == 'l' && ReduceMotionKey[5] == 'r';
    assert FontSizeKey[5] == 'f' && AccentKey[5] == 'a' && BgThemeKey[5] == 'b';
  }

  /** `getPref`: `localStorage.getItem(key) ?? def`; a stored empty string
      is a value, not a miss. */
  function GetPref(p: Prefs, key: string, def: string): (v: string)
    ensures key in p ==> v == p[key]
    ensures key !in p ==> v == def
  {
    if key in p then p[key] else def
  }

  /** `after` is `before` with `key` set to `value`: one key gained at most,
      and every other stored value kept. */
  predicate Stores(before: Prefs, after: Prefs, key: string, value: string) {
    && after.Keys == before.Keys + {key}
    && after[key] == value
    && forall k :: k in before && k != key ==> after[k] == before[k]
  }

  /** `savePref`. */
  function SavePref(p: Prefs, key: string, value: string): (r: Prefs)
    ensures Stores(p, r, key, value)
  {
    p[key := value]
  }

  /** What is saved reads back, and nothing else moves. */
  lemma SavedPrefReadsBack(p: Prefs, key: string, value: string, other: string, def: string)
    ensures GetPref(SavePref(p, key, value), key, def) == value
    ensures other != key ==> GetPref(SavePref(p, key, value), other, def) == GetPref(p, other, def)
  {
  }

  /** The default is used exactly for an absent key (given a stored value
      that differs from it). */
  lemma DefaultOnlyWhenAbsent(p: Prefs, key: string, def: string)
    requires key in p ==> p[key] != def
    ensures GetPref(p, key, def) == def <==> key !in p
  {
  }

  /** `applyFontSize`'s table: small, medium and large; anything else is medium. */
  function FontSizePx(size: string): (px: string)
    ensures px == "14px" || px == "16px" || px == "18px"
    ensures px == "14px" <==> size == "small"
    ensures px == "18px" <==> size == "large"
  {
    if size == "small" then "14px"
    else if size == "medium" then "16px"
    else if size == "large" then "18px"
    else "16px"
  }

  /** Reduce-motion as stored: '1' or '0'. */
  function EncodeReduceMotion(enabled: bool): (s: string)
    ensures s == "1" <==> enabled
    ensures s == "0" <==> !enabled
  {
    if enabled then "1" else "0"
  }

  /** Reduce-motion as read at page load: `getPref(key, '0') === '1'`. */
  function DecodeReduceMotion(p: Prefs): bool {
    GetPref(p, ReduceMotionKey, "0") == "1"
  }

  /** What the preferences show on the page. */
  datatype Page = Page(
    lightTheme: bool,         // the `light-theme` class
    lang: string,             // `data-lang`
    reduceMotion: bool,       // the `reduce-motion` class
    fontPx: string,           // the base font size
    accentPurple: bool,       // `data-accent="purple"`
    bgTheme: Option<string>)  // `data-bg-theme`, absent until set

  datatype Site = Site(page: Page, prefs: Prefs)

  function ApplyTheme(st: Site, theme: string): (r: Site)
    ensures r.page.lightTheme <==> theme == "light"
    ensures r.page == st.page.(lightTheme := r.page.lightTheme)
    ensures Stores(st.prefs, r.prefs, ThemeKey, theme)
  {
    Site(st.page.(lightTheme := theme == "light"), SavePref(st.prefs, ThemeKey, theme))
  }

  function ApplyLanguage(st: Site, lang: string): (r: Site)
    ensures r.page == st.page.(lang := lang)
    ensures Stores(st.prefs, r.prefs, LangKey, lang)
  {
    Site(st.page.(lang := lang), SavePref(st.prefs, LangKey, lang))
  }

  function ApplyReduceMotion(st: Site, enabled: bool): (r: Site)
    ensures r.page == st.page.(reduceMotion := enabled)
    ensures DecodeReduceMotion(r.prefs) == enabled
    ensures Stores(st.prefs, r.prefs, ReduceMotionKey, EncodeReduceMotion(enabled))
  {
    Site(st.page.(reduceMotion := enabled), SavePref(st.prefs, ReduceMotionKey, EncodeReduceMotion(enabled)))
  }

  /** The page shows the mapped size; the raw choice is what is saved. */
  function ApplyFontSize(st: Site, size: string): (r: Site)
    ensures r.page == st.page.(fontPx := FontSizePx(size))
    ensures Stores(st.prefs, r.prefs, FontSizeKey, size)
  {
    Site(st.page.(fontPx := FontSizePx(size)), SavePref(st.prefs, FontSizeKey, size))
  }

  function SetAccent(st: Site, name: string): (r: Site)
    ensures r.page.accentPurple <==> name == "purple"
    ensures r.page == st.page.(accentPurple := r.page.accentPurple)
    ensures Stores(st.prefs, r.prefs, AccentKey, name)
  {
    Site(st.page.(accentPurple := name == "purple"), SavePref(st.prefs, AccentKey, name))
  }

  /** `setBgTheme`: a missing or empty name changes nothing at all. */
  function SetBgTheme(st: Site, name: Option<string>): (r: Site)
    ensures name.None? || name == Some("") ==> r == st
    ensures name.Some? && name.value != "" ==>
              r.page.bgTheme == name && r.prefs == SavePref(st.prefs, BgThemeKey, name.value)
  {
    if name.None? || name.value == "" then st
    else Site(st.page.(bgTheme := name), SavePref(st.prefs, BgThemeKey, name.value))
  }

  /** Saving reduce-motion and reading it back gives the same flag. */
  lemma ReduceMotionRoundTrip(st: Site, enabled: bool)
    ensures DecodeReduceMotion(ApplyReduceMotion(st, enabled).prefs) == enabled
  {
  }

  /** The page as it is before the script runs. */
  const InitialPage := Page(false, "", false, "16px", false, None)

  /** Page load: every preference read with its default and applied (which
      also writes it back). */
  /** `q` holds every entry of `p`, adds only preference keys, and changes
      no entry outside them. */
  predicate KeepsOthers(p: Prefs, q: Prefs) {
    && p.Keys <= q.Keys <= p.Keys + PrefKeys
    && forall k :: k in p && k !in PrefKeys ==> q[k] == p[k]
  }

  /** Page load writes back only the six keys it reads, and keeps every
      other stored entry. */
  function Startup(p: Prefs): (r: Site)
    ensures KeepsOthers(p, r.prefs)
  {
    var s0 := Site(InitialPage, p);
    var s1 := ApplyTheme(s0, GetPref(p, ThemeKey, "dark"));
    var s2 := ApplyLanguage(s1, GetPref(s1.prefs, LangKey, "en"));
    var s3 := ApplyReduceMotion(s2, GetPref(s2.prefs, ReduceMotionKey, "0") == "1");
    var s4 := ApplyFontSize(s3, GetPref(s3.prefs, FontSizeKey, "medium"));
    var s5 := SetAccent(s4, GetPref(s4.prefs, AccentKey, "original"));
    SetBgTheme(s5, Some(GetPref(s5.prefs, BgThemeKey, "galaxy")))
  }

  /** The page the stored preferences describe. */
  function PageOf(p: Prefs): Page {
    var bg := GetPref(p, BgThemeKey, "galaxy");
    Page(GetPref(p, ThemeKey, "dark") == "light",
         GetPref(p, LangKey, "en"),
         DecodeReduceMotion(p),
         FontSizePx(GetPref(p, FontSizeKey, "medium")),
         GetPref(p, AccentKey, "original") == "purple",
         if bg == "" then None else Some(bg))
  }

  /** Two stores from which page load reads the same six values. */
  predicate SameReads(p: Prefs, q: Prefs) {
    && GetPref(p, ThemeKey, "dark") == GetPref(q, ThemeKey, "dark")
    && GetPref(p, LangKey, "en") == GetPref(q, LangKey, "en")
    && DecodeReduceMotion(p) == DecodeReduceMotion(q)
    && GetPref(p, FontSizeKey, "medium") == GetPref(q, FontSizeKey, "medium")
    && GetPref(p, AccentKey, "original") == GetPref(q, AccentKey, "original")
    && GetPref(p, BgThemeKey, "galaxy") == GetPref(q, BgThemeKey, "galaxy")
  }

  /** Saving, under one of the six keys, the value page load reads there
      changes none of the six reads. */
  lemma RewriteKeepsReads(p: Prefs, key: string, def: string)
    requires (key, def) in {(ThemeKey, "dark"), (LangKey, "en"), (FontSizeKey, "medium"),
                            (AccentKey, "original"), (BgThemeKey, "galaxy")}
    ensures SameReads(SavePref(p, key, GetPref(p, key, def)), p)
  {
    KeysDistinct();
  }

  /** Reduce-motion is written back as '1' or '0', which reads as the same flag. */
  lemma RewriteMotionKeepsReads(p: Prefs)
    ensures SameReads(SavePref(p, ReduceMotionKey, EncodeReduceMotion(DecodeReduceMotion(p))), p)
  {
    KeysDistinct();
  }

  lemma SameReadsSamePage(p: Prefs, q: Prefs)
    requires SameReads(p, q)
    ensures PageOf(p) == PageOf(q)
  {
  }

  /** The page agrees with what is stored. */
  predicate InSync(st: Site) {
    st.page == PageOf(st.prefs)
  }

  /** Page load shows exactly what the stored preferences describe, and
      stores every key it read. */
  lemma StartupShowsPrefs(p: Prefs)
    ensures InSync(Startup(p))
    ensures Startup(p).page == PageOf(p)
    ensures var q := Startup(p).prefs;
            ThemeKey in q && LangKey in q && ReduceMotionKey in q && FontSizeKey in q && AccentKey in q && BgThemeKey in q
    ensures SameReads(Startup(p).prefs, p)
  {
    var s0 := Site(InitialPage, p);
    var s1 := ApplyTheme(s0, GetPref(p, ThemeKey, "dark"));
    RewriteKeepsReads(s0.prefs, ThemeKey, "dark");
    var s2 := ApplyLanguage(s1, GetPref(s1.prefs, LangKey, "en"));
    RewriteKeepsReads(s1.prefs, LangKey, "en");
    var s3 := ApplyReduceMotion(s2, GetPref(s2.prefs, ReduceMotionKey, "0") == "1");
    RewriteMotionKeepsReads(s2.prefs);
    var s4 := ApplyFontSize(s3, GetPref(s3.prefs, FontSizeKey, "medium"));
    RewriteKeepsReads(s3.prefs, FontSizeKey, "medium");
    var s5 := SetAccent(s4, GetPref(s4.prefs, AccentKey, "original"));
    RewriteKeepsReads(s4.prefs, AccentKey, "original");
    var s6 := SetBgTheme(s5, Some(GetPref(s5.prefs, BgThemeKey, "galaxy")));
    RewriteKeepsReads(s5.prefs, BgThemeKey, "galaxy");
    assert s6 == Startup(p);
    assert SameReads(s6.prefs, p);
    SameReadsSamePage(s6.prefs, p);
  }


  /** Every control keeps page and storage in step (the background chip only
      with a non-empty name, which is all the chips offer). */
  lemma ControlsKeepSync(st: Site, theme: string, lang: string, enabled: bool, size: string,
                         accent: string, bg: string)
    requires InSync(st)
    requires bg != ""
    ensures InSync(ApplyTheme(st, theme))
    ensures InSync(ApplyLanguage(st, lang))
    ensures InSync(ApplyReduceMotion(st, enabled))
    ensures InSync(ApplyFontSize(st, size))
    ensures InSync(SetAccent(st, accent))
    ensures InSync(SetBgTheme(st, Some(bg)))
  {
    ThemeKeepsSync(st, theme);
    LanguageKeepsSync(st, lang);
    MotionKeepsSync(st, enabled);
    FontSizeKeepsSync(st, size);
    AccentKeepsSync(st, accent);
    BgThemeKeepsSync(st, bg);
  }

  lemma ThemeKeepsSync(st: Site, theme: string)
    requires InSync(st)
    ensures InSync(ApplyTheme(st, theme))
  {
    KeysDistinct();
  }

  lemma LanguageKeepsSync(st: Site, lang: string)
    requires InSync(st)
    ensures InSync(ApplyLanguage(st, lang))
  {
    KeysDistinct();
  }

  lemma MotionKeepsSync(st: Site, enabled: bool)
    requires InSync(st)
    ensures InSync(ApplyReduceMotion(st, enabled))
  {
    KeysDistinct();
  }

  lemma FontSizeKeepsSync(st: Site, size: string)
    requires InSync(st)
    ensures InSync(ApplyFontSize(st, size))
  {
    KeysDistinct();
  }

  lemma AccentKeepsSync(st: Site, accent: string)
    requires InSync(st)
    ensures InSync(SetAccent(st, accent))
  {
    KeysDistinct();
  }

  lemma BgThemeKeepsSync(st: Site, bg: string)
    requires InSync(st) && bg != ""
    ensures InSync(SetBgTheme(st, Some(bg)))
  {
    KeysDistinct();
  }

  /** A reload shows the page as it was left. */
  lemma ReloadShowsSamePage(st: Site)
    requires InSync(st)
    ensures Startup(st.prefs).page == st.page
  {
    StartupShowsPrefs(st.prefs);
  }

  /** The reset button: dark, English, motion on, medium. */
  function Reset(st: Site): (r: Site)
    ensures r.page == st.page.(lightTheme := false, lang := "en", reduceMotion := false, fontPx := "16px")
    ensures GetPref(r.prefs, ThemeKey, "") == "dark" && GetPref(r.prefs, LangKey, "") == "en"
    ensures !DecodeReduceMotion(r.prefs) && GetPref(r.prefs, FontSizeKey, "") == "medium"
    ensures forall k :: k in st.prefs && k !in {ThemeKey, LangKey, ReduceMotionKey, FontSizeKey} ==>
              k in r.prefs && r.prefs[k] == st.prefs[k]
  {
    ApplyFontSize(ApplyReduceMotion(ApplyLanguage(ApplyTheme(st, "dark"), "en"), false), "medium")
  }
}
