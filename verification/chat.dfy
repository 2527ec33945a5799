/** The study assistant's canned replies: keywords of a reply table are
    matched in table order against the lower-cased message; without a match a
    short chain of phrase checks picks a generic reply. */
module Chat {
  import opened Text

  /** One reply in both languages. */
  datatype Reply = Reply(en: string, ar: string)

  /** A row of the reply table. */
  datatype Entry = Entry(keyword: string, reply: Reply)

  /** The generic replies used when no keyword matches. */
  datatype Canned = Canned(smallTalk: Reply, howTo: Reply, whatIs: Reply, best: Reply,
                           beginner: Reply, fallback: Reply)

  /** `response[currentLang] || response.en`: the Arabic text for 'ar' when
      it is non-empty, the English text otherwise. */
  function Localize(r: Reply, lang: string): (t: string)
    ensures t == r.ar || t == r.en
    ensures t == r.ar && r.ar != r.en ==> lang == "ar"
  {
    if lang == "ar" && r.ar != "" then r.ar else r.en
  }

  /** `currentLang === 'ar' ? ar : en`, the form the generic replies use. */
  function Pick(r: Reply, lang: string): string {
    if lang == "ar" then r.ar else r.en
  }

  /** The table rows whose keyword the message includes, in table order. */
  function Matches(table: seq<Entry>, message: string): (ms: seq<Entry>)
    ensures |ms| <= |table|
    ensures forall i :: 0 <= i < |ms| ==> ms[i] in table && Contains(message, ms[i].keyword)
    decreases |table|
  {
    if |table| == 0 then []
    else
      var rest := Matches(table[1..], message);
      if Contains(message, table[0].keyword) then [table[0]] + rest else rest
  }

  /** Nothing that matches is dropped. */
  lemma {:induction false} MatchesComplete(table: seq<Entry>, message: string, e: Entry)
    requires e in table && Contains(message, e.keyword)
    ensures e in Matches(table, message)
    decreases |table|
  {
    if table[0] != e {
      MatchesComplete(table[1..], message, e);
    }
  }

  /** Matching keeps table order: the matches of two table halves are the
      matches of the first followed by those of the second. */
  lemma {:induction false} MatchesAppend(a: seq<Entry>, b: seq<Entry>, message: string)
    ensures Matches(a + b, message) == Matches(a, message) + Matches(b, message)
    decreases |a|
  {
    if |a| > 0 {
      assert (a + b)[0] == a[0] && (a + b)[1..] == a[1..] + b;
      MatchesAppend(a[1..], b, message);
      var ma, mb := Matches(a[1..], message), Matches(b, message);
      if Contains(message, a[0].keyword) {
        assert Matches(a + b, message) == [a[0]] + (ma + mb);
        assert Matches(a, message) == [a[0]] + ma;
        assert [a[0]] + (ma + mb) == [a[0]] + ma + mb;
      } else {
        assert Matches(a + b, message) == ma + mb;
      }
    } else {
      assert a + b == b;
    }
  }

  /** A keyword that holds another as a substring (such as "javascript" and
      "java") drags the shorter one's reply along. */
  lemma LongerKeywordBringsShorter(table: seq<Entry>, message: string, long: Entry, short: Entry)
    requires long in table && short in table
    requires Contains(long.keyword, short.keyword)
    requires Contains(message, long.keyword)
    ensures long in Matches(table, message) && short in Matches(table, message)
  {
    MatchesComplete(table, message, long);
    ContainsTransitive(message, long.keyword, short.keyword);
    MatchesComplete(table, message, short);
  }

  /** The "Also, regarding k: …" segments for the further matches. */
  function AlsoRegarding(ms: seq<Entry>, lang: string): string
    decreases |ms|
  {
    if |ms| == 0 then ""
    else "\n\nAlso, regarding " + ms[0].keyword + ": " + Localize(ms[0].reply, lang)
         + AlsoRegarding(ms[1..], lang)
  }

  predicate ContainsAny(message: string, phrases: seq<string>) {
    exists i :: 0 <= i < |phrases| && Contains(message, phrases[i])
  }

  const SmallTalkPhrases: seq<string> := ["how are you", "how r u", "كيف حالك", "عامل ايه", "ازيك"]
  const HowToPhrases: seq<string> := ["how to", "كيف"]
  const WhatIsPhrases: seq<string> := ["what is", "ما هو"]
  const BestPhrases: seq<string> := ["best", "أفضل"]
  const BeginnerPhrases: seq<string> := ["beginner", "مبتدئ"]

  /** The reply when no keyword matches: the first phrase group the message
      includes, else the default reply. */
  function GenericReply(canned: Canned, lang: string, lower: string): string {
    if ContainsAny(lower, SmallTalkPhrases) then Pick(canned.smallTalk, lang)
    else if ContainsAny(lower, HowToPhrases) then Pick(canned.howTo, lang)
    else if ContainsAny(lower, WhatIsPhrases) then Pick(canned.whatIs, lang)
    else if ContainsAny(lower, BestPhrases) then Pick(canned.best, lang)
    else if ContainsAny(lower, BeginnerPhrases) then Pick(canned.beginner, lang)
    else Localize(canned.fallback, lang)
  }

  /** `getAIResponse`. */
  function GetAIResponse(table: seq<Entry>, canned: Canned, lang: string, message: string): (answer: string)
    ensures var ms := Matches(table, Lower(message));
            |ms| > 0 ==> answer == Localize(ms[0].reply, lang) + AlsoRegarding(ms[1..], lang)
    ensures Matches(table, Lower(message)) == [] ==> answer == GenericReply(canned, lang, Lower(message))
  {
    var lower := Lower(message);
    var ms := Matches(table, lower);
    if |ms| > 1 then Localize(ms[0].reply, lang) + AlsoRegarding(ms[1..], lang)
    else if |ms| == 1 then
      assert ms[1..] == [];
      Localize(ms[0].reply, lang)
    else GenericReply(canned, lang, lower)
  }

  /** A single match answers with just that entry's reply. */
  lemma SingleMatchAnswer(table: seq<Entry>, canned: Canned, lang: string, message: string, e: Entry)
    requires Matches(table, Lower(message)) == [e]
    ensures GetAIResponse(table, canned, lang, message) == Localize(e.reply, lang)
  {
    assert [e][1..] == [];
  }

  /** A table keyword outranks every generic phrase: once any keyword
      matches, the answer opens with the first matching row's reply. */
  lemma KeywordOutranksPhrases(table: seq<Entry>, canned: Canned, lang: string, message: string, e: Entry)
    requires e in table && Contains(Lower(message), e.keyword)
    ensures var ms := Matches(table, Lower(message));
            |ms| > 0 && StartsWith(GetAIResponse(table, canned, lang, message), Localize(ms[0].reply, lang))
  {
    MatchesComplete(table, Lower(message), e);
  }

  /** Rows that come first in the table are answered first: a matching row
      placed before all others decides how the answer opens. */
  lemma FirstRowLeads(head: Entry, rest: seq<Entry>, canned: Canned, lang: string, message: string)
    requires Contains(Lower(message), head.keyword)
    ensures StartsWith(GetAIResponse([head] + rest, canned, lang, message), Localize(head.reply, lang))
  {
    MatchesAppend([head], rest, Lower(message));
  }

  /** The answer is in the requested language whenever the replies have that
      language's text, and English otherwise. */
  lemma ArabicFallsBackToEnglish(r: Reply, lang: string)
    ensures lang == "ar" && r.ar != "" ==> Localize(r, lang) == r.ar
    ensures lang != "ar" || r.ar == "" ==> Localize(r, lang) == r.en
  {
  }
}
