# CodeMaster client logic in Dafny

CodeMaster is a course-catalogue web site. All of its behaviour runs in the browser and keeps its state in local and session storage. This project models the parts of its scripts that hold real logic and proves properties of them:

- **Authentication** (`auth.js`):
  - the name, e-mail and password validators;
  - the 32-bit rolling password hash and hash-then-compare verification;
  - login and sign-up, each as one atomic step;
  - the failed-login counter, which locks an e-mail after five failures for fifteen minutes;
  - the two-tier session: "remember me" for thirty days in local storage, otherwise thirty minutes in session storage;
  - the expiry check at page load, and logout.
- **Settings store** (`settings.js`):
  - the fixed-schema defaults;
  - load as a shallow merge of the saved blob over the defaults, save, and reset;
  - get/set through dotted paths into the `privacy` and `accessibility` groups;
  - the effective theme and text direction;
  - the "DELETE" gate of account deletion.
- **Page script** (`script.js`):
  - the theme and language toggle buttons;
  - how a bilingual element picks its text;
  - the disposable-address guard on the auth forms;
  - the course-highlight match;
  - the keyword-table reply selection of the study assistant;
  - the course player's open/select/previous/next.
- **Site script** (`site.js`):
  - the `pref_*` preferences (`getPref`/`savePref`, font-size table, the `'1'`/`'0'` reduce-motion flag, accent, background theme, reset, page-load replay);
  - the course "country" slug;
  - which video ids a course card carries.

Every operation is a pure function of the stored state, the input and the current time `now`. The current time is a parameter given in milliseconds. Each storage area is a typed record or map, not a JSON string.

Modules, one per file:
- `Options` — an optional value.
- `Text` — JavaScript white space, `trim`, ASCII `toLowerCase`, `includes`, `split`/`join` on one character, `replace(/\s+/g, c)`.
- `PasswordHash`
- `Validation`
- `RateLimit`
- `Auth`
- `Settings`
- `SitePrefs`
- `CourseCards`
- `Page`
- `Chat`
- `Player`

Session behaviour worth noting:
- The two session tiers are not exclusive: a write to one never clears the other (`Auth.RememberedIdentityShadowsPlainLogin`).
- The 30-minute expiry is set once, at login, and nothing extends it (`Auth.PlainLoginExpires`).
- Failed logins recorded earlier against an e-mail still count after a sign-up with it, and can lock the new account (`Auth.RegisterThenLogin` takes an unlocked e-mail as its precondition).
- A plain login lives in session storage. A page opened with that storage empty (a new tab, a restarted browser) restores nobody, even while the stored 30-minute expiry is live, and leaves that expiry behind with no identity to back it (`Auth.StartupLeavesPlainExpiryUnbacked`).

## Model

| member | source | states |
|---|---|---|
| RateLimit.IsLocked | auth.js:428-438 | locked only with a record of at least five failures; the lock lifts fifteen minutes after the last failure; five or more failures with the last one less than fifteen minutes ago (or in the future) lock |
| RateLimit.RecordFailure | auth.js:440-451 | a missing record starts at count 0; the count goes up by exactly one and is stamped `now`; the key set gains only this e-mail; every other record is unchanged |
| RateLimit.Clear | auth.js:453-457 | only this e-mail's record is deleted, every other record is kept, and the e-mail is unlocked at every time |
| RateLimit.FailureKeepsLock | auth.js:428-451 | a failure never unlocks anyone at the same instant |
| RateLimit.FailureIsolated | auth.js:440-451 | a failure for one e-mail does not change whether any other e-mail is locked, at any time |
| RateLimit.FailuresCount | auth.js:440-451 | n failures in a row add exactly n to the count and leave the last failure's time |
| RateLimit.FiveFailuresLock | auth.js:428-438 | five failures, the last less than fifteen minutes before `now`, lock the e-mail |
| RateLimit.StaleCounterRelocks | auth.js:428-438 | once the window has passed the e-mail is unlocked with its count still ≥ 5, and the next single failure locks it again |
| PasswordHash.ToInt32 | auth.js:281-282 | the result is a signed 32-bit integer congruent to the input modulo 2^32, and equal to the input when that is already in range |
| PasswordHash.ToInt32Congruent | auth.js:281-282 | inputs that are congruent modulo 2^32 truncate to the same value |
| PasswordHash.Hash | auth.js:276-285 | the hash of any string is a signed 32-bit integer |
| PasswordHash.LoopStepIsStep | auth.js:281-282 | the loop body's `(h << 5) - h + c` then `h & h` equals the truncation of `31·h + c` |
| PasswordHash.HashPassword | auth.js:276-289 | the loop computes the left fold `h := int32(31·h + c)` from 0; the result is 32-bit, and verification accepts the password against it |
| PasswordHash.Verify | auth.js:287-289 | a password always verifies against its own hash, and only a 32-bit value can verify |
| PasswordHash.HashAppend | auth.js:279-283 | one more character is one more step of the fold |
| PasswordHash.HashCollision | auth.js:276-289 | "Aa" and "BB" hash alike (2112), so each verifies against the other's stored hash |
| Validation.ValidateEmail | auth.js:63-79 | accepted iff the trimmed value matches `^[^\s@]+@[^\s@]+\.[^\s@]+$`; "required" iff the trimmed value is empty; "bad format" iff it is non-empty and does not match |
| Validation.EmailShapeParts | auth.js:65-72 | an address matching the pattern has no white space, exactly one '@', and a dotted domain after it |
| Validation.ValidatePassword | auth.js:81-106 | accepted iff it is at least 8 UTF-16 code units long and it has an upper-case letter, a lower-case letter, a digit and one of ``!@#$%^&*(),.?":{}|<>``; "required" iff empty; "too short" iff it is 1–7 code units long; "missing character class" iff it is at least 8 code units long and lacks one of the four classes |
| Validation.ValidateName | auth.js:108-123 | accepted iff the trimmed name is at least 2 UTF-16 code units long; "required" iff it is empty; "too short" iff it is exactly one code unit |
| Validation.PasswordExamples | auth.js:81-106 | "Secret1!" passes, "Sec1!" is too short, "secret12!" misses a character class |
| Validation.EmojiNameAccepted | auth.js:116 | a name made of one emoji is accepted, because `length` counts its two code units |
| Validation.EmojiPasswordAccepted | auth.js:94 | six characters including two emoji meet the eight-unit minimum |
| Auth.FindUser | auth.js:184 | the first record with exactly this e-mail, or none when no record has it |
| Auth.SetCurrentUser | auth.js:291-304 | stamps `lastLogin` on the stored record and makes it current; "remember me" writes the durable identity and a 30-day expiry, otherwise the session identity and a 30-minute expiry; the other tier and the attempts are untouched |
| Auth.Logout | auth.js:321-334 | no current user; durable identity, expiry and session identity all removed; accounts and attempts kept; an "expired" or "logged out" notice |
| Auth.CheckSession | auth.js:306-319 | an expiry already passed is exactly an expired logout; otherwise storage is untouched and the session identity becomes current only when nobody is |
| Auth.Startup | auth.js:3-16 | page load, the constructor followed by `checkSession` (auth.js:306-319): with a passed expiry everything of the session is removed and an "expired" notice is shown, accounts and attempts kept; otherwise storage is untouched, silently, and the remembered identity becomes current, else the session-storage one |
| Auth.Login | auth.js:163-203 | a locked e-mail changes nothing; the "invalid" answer records exactly one failure and changes nothing else; success means the stored hash verifies, the record is cleared and the account is current; there are no other outcomes |
| Auth.CreateAccount | auth.js:244-264 | appends exactly one record (hashed password, no last login yet), then logs it in without "remember me" |
| Auth.Register | auth.js:205-274 | the outcome is "invalid fields" iff a validator refuses; "passwords differ" iff all accept and a non-empty confirmation differs from the password; "duplicate" iff those pass and the trimmed e-mail is taken; an account is created iff none of these holds, and it is exactly `CreateAccount` on the trimmed name and e-mail; every refusal leaves the state unchanged |
| Auth.SetCurrentUserKeepsEmails | auth.js:291-293 | logging in never changes any account's e-mail |
| Auth.LoginPreservesValid | auth.js:163-203 | login keeps e-mails unique and keeps every stored expiry backed by an identity |
| Auth.CreateAccountPreservesValid | auth.js:244-264 | appending a fresh e-mail keeps e-mails unique and keeps every stored expiry backed by an identity |
| Auth.RegisterPreservesValid | auth.js:205-274 | sign-up keeps e-mails unique and keeps every stored expiry backed by an identity |
| Auth.CheckSessionPreservesValid | auth.js:306-319 | the page-load check keeps the invariant |
| Auth.FailedLoginCountsOnce | auth.js:184-188 | an unknown e-mail or wrong password, when not locked, adds exactly one failure and sets no session |
| Auth.LoginSucceeds | auth.js:184-197 | the right password for a stored, unlocked e-mail logs in: a welcome with the account's name, and that account, stamped with `now`, becomes current |
| Auth.SuccessfulLoginClearsRecord | auth.js:191 | after a successful login the e-mail has no failure record and is unlocked at every time |
| Auth.SixthAttemptRefused | auth.js:171-175 | after five recent failures even the right password is refused, with nothing recorded |
| Auth.DuplicateRegistrationRefused | auth.js:232-235 | a valid sign-up whose trimmed e-mail is already stored is refused and changes nothing |
| Auth.RegisterThenLogin | auth.js:205-264 | a new account can log in at once with the same e-mail and password, unless that e-mail is still locked |
| Auth.ExpiredSessionLoggedOut | auth.js:306-312 | at page load a passed expiry logs out and removes all three entries |
| Auth.RememberedLoginSurvivesReload | auth.js:295-297 | a "remember me" login is still current after a reload within thirty days, whatever session storage holds |
| Auth.PlainLoginExpires | auth.js:298-301 | a plain login is gone after a reload more than thirty minutes later |
| Auth.RememberedIdentityShadowsPlainLogin | auth.js:291-319 | an earlier "remember me" identity survives a later plain login and is the one current after a reload |
| Settings.Load | settings.js:35-41 | the schema keys are always present; nothing saved gives the defaults; with a blob, every saved key wins whole and every other key takes its default |
| Settings.Open | settings.js:25 | the constructor's settings carry the whole schema |
| Settings.Save | settings.js:43-46 | the stored blob is the settings, unchanged |
| Settings.SaveLoadRoundTrip | settings.js:35-45 | loading what was saved gives back the same settings |
| Settings.OpenSaveReopen | settings.js:25-45 | open, save and reopen gives the settings first opened |
| Settings.Reset | settings.js:496-503 | confirmed: settings and saved blob are the defaults; not confirmed: nothing changes |
| Settings.ResetRestoresDefaults | settings.js:496-499 | after a confirmed reset every top-level field equals its default, also after a reload |
| Settings.SetIn | settings.js:410-415 | a successful write keeps an object and adds at most the written key at its level |
| Settings.SetNested | settings.js:410-415 | a successful write adds at most the path's first key to the top level |
| Settings.SetSucceedsIff | settings.js:410-415 | a write succeeds iff every proper prefix of the path reads an object, i.e. no step of the walk meets a missing key or a non-object |
| Settings.GroupToggleWritable | settings.js:410-415 | writing `group.leaf` succeeds iff the group exists and is an object |
| Settings.GetIn | settings.js:407 | the `obj && obj[key]` reduce: `undefined` and falsy values pass through unchanged, and a defined result from a truthy start means the first key was found in an object |
| Settings.GetNested | settings.js:406-408 | a path without '.' reads the top-level key (undefined when absent); a path whose first key is missing reads undefined |
| Settings.GetInUndefined | settings.js:407 | reading on from `undefined` stays `undefined` |
| Settings.MissingKeyIsUndefined | settings.js:407 | a path whose first key is missing reads `undefined` |
| Settings.GetAfterSet | settings.js:406-415 | after a successful set the same path reads the new value |
| Settings.SetLeavesOthers | settings.js:406-415 | a set leaves every path that parts ways with it reading as before |
| Settings.PathKeys | settings.js:407 | the dotted path `group.leaf` splits into the keys `[group, leaf]` |
| Settings.ToggleRoundTrip | settings.js:395-415 | for an existing group object, a toggle written through its dotted path succeeds and reads back, and every other `group.leaf` path reads as before |
| Settings.GetTwoKeys | settings.js:407 | a two-key path is read in two steps |
| Settings.GroupToggleReads | settings.js:406-408 | a toggle present in its group reads through its dotted path |
| Settings.ShallowMergeHidesGroupDefaults | settings.js:38 | a saved empty group object hides every default toggle of that group, so its path reads `undefined` |
| Settings.SetIntoMissingGroupFails | settings.js:413-414 | writing into a missing group throws |
| Settings.EffectiveTheme | settings.js:451-456 | never "auto": "auto" becomes dark or light from the system preference, any other theme is kept |
| Settings.TextDirection | settings.js:467-469 | "rtl" iff the language is "ar", otherwise "ltr" |
| Settings.DefaultPresentation | settings.js:4-23 | with nothing saved the page is dark and left-to-right |
| Settings.DeleteAccount | settings.js:548-565 | only the exact answer "DELETE" removes the four account keys, keeps every other local key, and empties session storage; any other answer or a cancel changes nothing |
| SitePrefs.GetPref | site.js:127 | `??` semantics: a stored value, even "", is returned; the default only for an absent key |
| SitePrefs.SavePref | site.js:126 | storage gains at most this key, holds the value under it, and keeps every other entry |
| SitePrefs.SavedPrefReadsBack | site.js:126-127 | a saved preference reads back, and every other key reads as before |
| SitePrefs.DefaultOnlyWhenAbsent | site.js:127 | the default is returned exactly when the key is absent; a stored empty string is a value |
| SitePrefs.FontSizePx | site.js:154-161 | small→14px, large→18px, anything else 16px |
| SitePrefs.ApplyTheme | site.js:129-132 | the light theme is shown iff the theme is "light" |
| SitePrefs.ApplyLanguage | site.js:134-147 | the page's language becomes `lang`, nothing else on the page changes, and `pref_lang` is saved with every other entry kept |
| SitePrefs.EncodeReduceMotion | site.js:151 | the stored string is '1' exactly when the flag is on and '0' exactly when it is off |
| SitePrefs.ApplyReduceMotion | site.js:149-152 | the page's flag becomes `enabled`; `pref_reduce_motion` is set to exactly '1' or '0', which reads back as the same flag, and storage gains no other key and keeps every other entry |
| SitePrefs.ApplyFontSize | site.js:154-161 | the page shows the mapped pixel size while the raw choice is saved; nothing else on the page changes |
| SitePrefs.SetAccent | site.js:182-186 | the purple accent is on iff the name is "purple"; the raw name is saved; nothing else on the page changes |
| SitePrefs.SetBgTheme | site.js:199-205 | a missing or empty name changes nothing; otherwise the page and `pref_bg_theme` take the name |
| SitePrefs.ReduceMotionRoundTrip | site.js:149-152 | storing the flag as '1'/'0' and reading it back as `=== '1'` gives the same flag |
| SitePrefs.Startup | site.js:170-206 | page load keeps every stored entry, adds only the six preference keys, and changes no value outside them |
| SitePrefs.StartupShowsPrefs | site.js:170-206 | page load shows exactly what the stored preferences describe, each with its default; it stores all six keys it read, and the stored values read back as the same six preferences |
| SitePrefs.ControlsKeepSync | site.js:129-205 | every control keeps page and storage in step |
| SitePrefs.ReloadShowsSamePage | site.js:170-206 | a reload shows the page as it was left |
| SitePrefs.Reset | site.js:241-251 | theme dark, language en, motion on, font medium on the page and in storage; every other stored preference is kept |
| CourseCards.Slug | site.js:98 | the slug has no white space, no capitals, and is no longer than the title |
| CourseCards.SlugIdempotent | site.js:98 | a slug is its own slug |
| CourseCards.SlugOfOneWord | site.js:98 | a title without white space is only lower-cased |
| CourseCards.SlugRun | site.js:98 | each run of white space, of any length and kind, becomes exactly one '-' |
| CourseCards.SelectVideos | site.js:795-806 | a non-empty `data-yt` first, then the exact title's ids, then the lower-cased `data-lang` key's ids, otherwise empty |
| CourseCards.TitleVideosRecoverable | site.js:798-799 | splitting the comma-joined ids gives back the title's id list |
| CourseCards.ExplicitIdsWin | site.js:795 | an explicit `data-yt` wins over any table entry |
| Text.Trim | auth.js:64 | the result neither starts nor ends with white space, is no longer than the input, and leaves text containing no white space unchanged |
| Text.TrimKeepsMiddle | auth.js:64 | the trimmed text is a contiguous slice of the input with only white space before and after it |
| Text.Utf16Length | auth.js:94 | the UTF-16 length lies between the character count and twice it, is zero only for the empty string, and equals the character count when no character lies outside the Basic Multilingual Plane |
| Text.ContainsIffOccurs | script.js:210 | `includes` holds iff the substring occurs at some offset |
| Text.SplitJoin | site.js:799 | splitting a join on a separator no piece holds gives back the pieces |
| Text.CollapseRun | site.js:98 | `replace(/\s+/g, c)` turns one run of white space between non-space text into exactly one `c` |
| Page.StoredOr | script.js:9-10 | a stored non-empty value is used; a missing or empty one gives the default |
| Page.InitialTheme | script.js:9 | the theme is dark exactly when nothing, an empty string or "dark" is stored |
| Page.InitialLanguage | script.js:10 | the language is English exactly when nothing, an empty string or "en" is stored |
| Page.Flip | script.js:457-466 | a two-state button yields one of its two states, the second exactly when it showed the first |
| Page.FlipTwice | script.js:457-466 | two presses give the value back iff it is one of the two states; from the first press on the button alternates |
| Page.ToggleTheme | script.js:457-460 | the result is dark or light, and light exactly when the theme was dark |
| Page.ToggleLanguage | script.js:463-466 | the result is en or ar, and ar exactly when the language was en |
| Page.ThemeToggleInvolution | script.js:494-497 | two presses give the theme back iff it is dark or light; from the first press on the button alternates |
| Page.LanguageToggleInvolution | script.js:501-504 | two presses give the language back iff it is en or ar; from the first press on the button alternates |
| Page.LocalizedText | script.js:45-56 | Arabic text for 'ar' and English text for 'en' when that attribute is non-empty; otherwise the element keeps its text |
| Page.UpdateLanguageElements | script.js:45-56 | every element, and only its text, is updated by the rule |
| Page.UpdateIdempotent | script.js:45-56 | updating twice for one language is updating once |
| Page.SiteLocalizedText | site.js:136-140 | the site rule: the attribute of the chosen language (Arabic for "ar", English otherwise) is used whenever present, even empty; without it the text stays |
| Page.BilingualRulesAgree | site.js:136-140 | the site script's rule agrees with the page script's for en/ar whenever the chosen attribute holds text |
| Page.BilingualRulesDiffer | site.js:136-140 | they differ on an empty Arabic attribute and on a third language |
| Page.IsDisposable | script.js:662-666 | an address without exactly one '@' is disposable; `DisposableIffBlockedDomain` gives the verdict for one '@' |
| Page.DisposableUnlessOneAt | script.js:662-666 | an address without exactly one '@' is disposable |
| Page.DisposableIffBlockedDomain | script.js:658-666 | with exactly one '@', disposable iff the lower-cased domain is on the eleven-domain list |
| Page.ValidAddressDisposableIff | script.js:662-666 | for an address the validator's pattern accepts, the guard is just the domain check |
| Page.GuardRejects | script.js:678-679 | an empty trimmed address, or one without exactly one '@', is refused |
| Page.AcceptedAddressGuard | script.js:678-679 | an address the validator accepts passes the guard iff its domain is not blocked |
| Page.Highlight | script.js:207-216 | a highlight needs one of the six keywords in the lower-cased search and one of them, or "machine", in the lower-cased title |
| Page.HighlightIgnoresCase | script.js:207-216 | the match does not depend on case |
| Page.HighlightSurvivesLongerSearch | script.js:211-216 | typing more around a search term never un-highlights a card |
| Page.EmailSearchHighlightsMachineLearning | script.js:213 | "ai" is a bare substring, so the search "email" highlights every title with "machine" |
| Chat.Localize | script.js:1251 | the Arabic text only for 'ar' when non-empty, otherwise English |
| Chat.Matches | script.js:1243-1247 | only rows of the table whose keyword the message includes |
| Chat.MatchesComplete | script.js:1243-1247 | every such row is kept |
| Chat.MatchesAppend | script.js:1243 | matches keep table order |
| Chat.LongerKeywordBringsShorter | script.js:1243-1247 | a message matching a keyword also matches every keyword inside it ("javascript" brings "java") |
| Chat.GetAIResponse | script.js:1238-1297 | with matches: the first match's reply then one "Also, regarding k:" segment per further match; without: the phrase chain and the default |
| Chat.SingleMatchAnswer | script.js:1259-1261 | one match answers with just its reply |
| Chat.KeywordOutranksPhrases | script.js:1250-1261 | once any keyword matches, the answer opens with the first matching row's reply, before any phrase check |
| Chat.FirstRowLeads | script.js:1243-1251 | a matching first row decides how the answer opens |
| Chat.ArabicFallsBackToEnglish | script.js:1251 | Arabic when asked for and present, English otherwise |
| Player.ClosedInv | script.js:1864-1865 | the player's starting state satisfies the invariant |
| Player.ModulesFor | script.js:1868 | a known course's modules, else the Full-Stack fallback's |
| Player.OpenCourse | script.js:1867-1877 | the name is kept, the index is 0, the course's or the fallback's list is shown with its first video loaded |
| Player.Select | script.js:1891 | a list click moves to that module and loads its video |
| Player.Prev | script.js:1905-1910 | one back, not below 0, for a course in the table; otherwise nothing happens; the course and the shown list never change |
| Player.Next | script.js:1911-1916 | one on, not past the last module, for a course in the table; otherwise nothing happens; the course and the shown list never change |
| Player.StepsClamp | script.js:1905-1916 | previous at the first module and next at the last change nothing |
| Player.PrevUndoesNext | script.js:1905-1916 | back after forward returns to the same state, except at the end |
| Player.StepButtonsStallOnFallback | script.js:1867-1916 | for an unknown course the fallback list is shown but next stays on module one |
| Player.PrevShown | script.js:1905-1910 | corrected previous over the list on screen: one back, not below 0 |
| Player.NextShown | script.js:1911-1916 | corrected next over the list on screen: one on, not past the end |
| Player.ShownStepsAgreeOnKnownCourses | script.js:1905-1916 | for courses in the table the corrected buttons behave as written |
| Player.ShownStepsWalkFallback | script.js:1867-1916 | with the corrected buttons next reaches module two of the fallback list |

## Left out

- DOM and CSS effects (class toggles, modals, notifications, user menu, dialogs, active chips) are not modelled. Notifications appear only as the `Auth.Notice` a step returns.
- The artificial `delay` and the double-submit re-entrancy it allows are not modelled. Login and sign-up are atomic steps.
- Animations, particles, counters, parallax, ripple and audio are left out. So are the network check before sign-up, the avatar `FileReader` and the data export.
- `Date.now()`, `matchMedia`, `confirm` and `prompt` are not called. They become the parameters `now`, `prefersDark`, `confirmed` and `answer`.
- JSON serialization is not modelled; storage is typed maps and records. Three consequences:
  - `Auth.User` keeps instants as integers where the code keeps ISO strings.
  - `Auth.User` keeps the hash as a number where the code keeps its decimal string. The comparison is the same, because `toString` of an integer is injective.
  - A corrupt or non-object settings blob is not modelled.
- JSON arrays in settings are left out; the schema has none.
- The static tables are parameters, not data: the course video map, the player's course table and the assistant's keyword table. `Player.WellFormed` states what the real course table satisfies. The disposable-domain list and the assistant's trigger phrases are kept as written.
- JavaScript object lookup finds inherited keys such as `constructor`, and primitives have properties such as `length`. Only own keys of plain data are modelled.
- `Text.Lower`: lower-cases ASCII letters only, where `toLowerCase` covers all of Unicode.
- `PasswordHash.Hash`: folds over Dafny characters, where `charCodeAt` reads UTF-16 code units. The two differ for characters outside the Basic Multilingual Plane.
- The settings object shares its group objects with the defaults after `{...defaultSettings}`, so a set can change the defaults in place. The model uses values and does not reproduce this aliasing.
- `Page.GuardRejects`: the guard runs as a capture listener, and its `stopPropagation` does not stop other listeners on the same form. That interaction is not modelled.
- The course card's derived title and description are not modelled: the title is `Trim` of the heading, and the description is `Trim` with white space collapsed. `SelectVideos` takes the title as given.
- The `try`/`catch` around storage access in the site script is not modelled. Storage is assumed to be available.

## Findings

| source | as written | input that shows it | evidently intended | confidence | as-written member | corrected member |
|---|---|---|---|---|---|---|
| script.js:1905-1916 | for a course name not in `courseMap`, `openCourse` shows the Full-Stack fallback list, but prev/next look up `courseMap[currentCourse]`, find nothing and return | open "Rust Basics" (not in the table), then press next: the player stays on module 1 of 3 | the step buttons walk the list that is on screen | medium, not executed | Player.StepButtonsStallOnFallback | Player.ShownStepsWalkFallback |
