/** `RuleLearner` of `rule_learner.py` (and `learn_customer_rules_with_ai` of
    the monolithic module, which differs only in how it cleans the words next
    to a candidate): learn anchor + pattern rules from a document.

    For every page with text the learner finds customer rectangles (person
    names near a customer keyword, else the customer keywords themselves),
    sensitive candidates (words shaped like an ID or a phone number, else the
    matches of the two expressions in the page text), adds label rules
    (`Số CMND: …`, `Số điện thoại: …`, `SĐT: …`), and then one rule per
    candidate occurrence near a customer rectangle, anchored on the words to
    its left. Every anchor is sanitised, rules are appended only when new. */
module RuleLearner {
  import opened Text
  import opened Basics
  import opened Constants
  import opened DigitRuns
  import opened Geometry
  import opened Document
  import opened KnowledgeBase

  /** The learner's fixed inputs: its customer keywords, the label expressions
      (as a finder) and whether it cleans words the way the monolithic module
      does. */
  datatype Learner = Learner(keywords: seq<string>, labels: LabelFinder, legacy: bool)

  /** `customer_keywords or DEFAULT_CUSTOMER_KEYWORDS`. */
  function LearnerKeywords(given: seq<string>): (kws: seq<string>)
    ensures given != [] ==> kws == given
    ensures given == [] ==> kws == CustomerKeywords
  {
    if given == [] then CustomerKeywords else given
  }

  /* ------------------------------------------------------------ rule lists */

  predicate NoDuplicates(rules: seq<Rule>) {
    forall i, j | 0 <= i < j < |rules| :: rules[i] != rules[j]
  }

  /** What every stored rule satisfies: a non-blank anchor that sanitising
      leaves as it is. */
  predicate GoodRule(r: Rule) {
    !IsBlank(r.anchor) && SanitizeAnchor(r.anchor) == r.anchor
  }

  /** `after` keeps `before` as its prefix, and everything appended is a good
      rule of page `pageNum`. */
  predicate Grows(before: seq<Rule>, after: seq<Rule>, pageNum: nat) {
    && |before| <= |after|
    && (forall k | 0 <= k < |before| :: after[k] == before[k])
    && (forall k | |before| <= k < |after| :: after[k].page == pageNum && GoodRule(after[k]))
  }

  /** Every rule of `before` is still in `after`. */
  predicate Keeps(before: seq<Rule>, after: seq<Rule>) {
    forall r | r in before :: r in after
  }

  /** `a` is a prefix of `b`, stated by position. */
  predicate IsPrefix(a: seq<Rule>, b: seq<Rule>) {
    |a| <= |b| && forall i | 0 <= i < |a| :: b[i] == a[i]
  }

  lemma PrefixKeeps(a: seq<Rule>, b: seq<Rule>)
    requires IsPrefix(a, b)
    ensures Keeps(a, b)
  {
    forall r | r in a ensures r in b {
      var i :| 0 <= i < |a| && a[i] == r;
      assert b[i] == a[i];
    }
  }

  lemma PrefixTrans(a: seq<Rule>, b: seq<Rule>, c: seq<Rule>)
    requires IsPrefix(a, b) && IsPrefix(b, c)
    ensures IsPrefix(a, c)
  {
  }

  lemma KeepsTrans(a: seq<Rule>, b: seq<Rule>, c: seq<Rule>)
    requires Keeps(a, b) && Keeps(b, c)
    ensures Keeps(a, c)
  {
  }

  /** `if rule not in rules: rules.append(rule)`. */
  function AddRule(rules: seq<Rule>, r: Rule): (out: seq<Rule>)
    ensures r in out
    ensures r in rules ==> out == rules
    ensures r !in rules ==> out == rules + [r]
    ensures NoDuplicates(rules) ==> NoDuplicates(out)
  {
    if r in rules then rules else rules + [r]
  }

  /** Sanitise an anchor and append the rule unless the result is blank. */
  function StoreAnchor(rules: seq<Rule>, pageNum: nat, anchor: string, kind: Kind): (out: seq<Rule>)
    ensures Grows(rules, out, pageNum)
    ensures NoDuplicates(rules) ==> NoDuplicates(out)
    ensures out == rules || out == rules + [Rule(pageNum, SanitizeAnchor(anchor), kind)]
    ensures Keeps(rules, out)
    ensures !IsBlank(SanitizeAnchor(anchor)) ==> Rule(pageNum, SanitizeAnchor(anchor), kind) in out
    ensures IsBlank(SanitizeAnchor(anchor)) ==> out == rules
    ensures !IsBlank(SanitizeAnchor(anchor)) ==> out == AddRule(rules, Rule(pageNum, SanitizeAnchor(anchor), kind))
  {
    var ra := SanitizeAnchor(anchor);
    SanitizeIdempotent(anchor);
    if IsBlank(ra) then rules else AddRule(rules, Rule(pageNum, ra, kind))
  }

  /* ------------------------------------------------------------ label rules */

  /** The label expressions in the order they are tried. */
  const LabelPatterns: seq<LabelPattern> := [CmndLabel, PhoneNumberLabel, SdtLabel]

  /** The pattern a label rule stores: the ID pattern for `Số CMND`, the phone
      pattern for the two phone labels. */
  function LabelKind(lp: LabelPattern): Kind {
    if lp == CmndLabel then Id else Phone
  }

  /** Label anchors are cut to their first 40 characters. */
  const LabelAnchorMax: nat := 40

  /** A label match passes every check of `_add_label_rules`: a value that
      occurs on the page, and a cut match that names no money field and is
      not blank. */
  predicate LabelPasses(p: Page, lm: LabelMatch) {
    && lm.value != [] && p.search(lm.value) != []
    && !ContainsAny(Lower(Prefix(lm.whole, LabelAnchorMax)), LabelMoneyWords)
    && HasText(Prefix(lm.whole, LabelAnchorMax))
  }

  /** The rule a label match stores: its sanitised, cut text. */
  function LabelRule(pageNum: nat, kind: Kind, lm: LabelMatch): Rule {
    Rule(pageNum, SanitizeAnchor(Prefix(lm.whole, LabelAnchorMax)), kind)
  }

  /** One label match: skip an empty value, a value not on the page and a
      money label; store the sanitised (cut) match otherwise. */
  function LabelStep(p: Page, pageNum: nat, kind: Kind, lm: LabelMatch, rules: seq<Rule>): (out: seq<Rule>)
    ensures Grows(rules, out, pageNum)
    ensures NoDuplicates(rules) ==> NoDuplicates(out)
    ensures lm.value == [] || p.search(lm.value) == [] ==> out == rules
    ensures ContainsAny(Lower(Prefix(lm.whole, LabelAnchorMax)), LabelMoneyWords) ==> out == rules
    ensures IsBlank(Prefix(lm.whole, LabelAnchorMax)) ==> out == rules
    ensures out == rules || out == rules + [LabelRule(pageNum, kind, lm)]
    ensures Keeps(rules, out)
    ensures LabelPasses(p, lm) ==> LabelRule(pageNum, kind, lm) in out
    ensures out == if LabelPasses(p, lm) then AddRule(rules, LabelRule(pageNum, kind, lm)) else rules
  {
    if lm.value == [] || p.search(lm.value) == [] then rules
    else
      var raw := Prefix(lm.whole, LabelAnchorMax);
      if ContainsAny(Lower(raw), LabelMoneyWords) then rules
      else
        SanitizeBlankIff(raw);
        HasTextIffNotBlank(raw);
        StoreAnchor(rules, pageNum, raw, kind)
  }

  /** Only `t`/`T`, `k`/`K` and `g`/`G` lower-case to `t`, `k` and `g`. */
  lemma LowerCharNotTkg(c: char)
    requires c != 't' && c != 'T' && c != 'k' && c != 'K' && c != 'g' && c != 'G'
    ensures LowerChar(c) != 't' && LowerChar(c) != 'k' && LowerChar(c) != 'g'
  {
  }

  /** The money vocabulary does not occur in `Số CMND: 012345678`. */
  lemma CmndLabelIsNotMoney()
    ensures !ContainsAny(Lower("Số CMND: 012345678"), LabelMoneyWords)
  {
    var whole := "Số CMND: 012345678";
    var low := Lower(whole);
    forall k | 0 <= k < |low|
      ensures low[k] != 't' && low[k] != 'k' && low[k] != 'g'
    {
      assert whole[k] in "Số CMND:012345678";
      LowerCharNotTkg(whole[k]);
    }
    forall i | 0 <= i < |LabelMoneyWords|
      ensures !Contains(low, LabelMoneyWords[i])
    {
      var c := if i == 1 || i == 2 then 'k' else if i == 3 then 'g' else 't';
      assert c in LabelMoneyWords[i];
      MissingCharNotContained(low, LabelMoneyWords[i], c);
    }
  }

  lemma CmndAnchorNotBlank()
    ensures !IsBlank("Số CMND: <ID>")
  {
    HasTextIffNotBlank("Số CMND: <ID>");
    assert !IsSpace("Số CMND: <ID>"[0]);
  }

  /** A `Số CMND: 012345678` match whose number is on the page adds the rule
      anchored on `Số CMND: <ID>` with the ID pattern. */
  lemma LabelStepCmndExample(p: Page, pageNum: nat, rules: seq<Rule>)
    requires p.search("012345678") != []
    requires Rule(pageNum, "Số CMND: <ID>", Id) !in rules
    ensures LabelStep(p, pageNum, Id, LabelMatch("Số CMND: 012345678", "012345678"), rules)
         == rules + [Rule(pageNum, "Số CMND: <ID>", Id)]
  {
    var whole := "Số CMND: 012345678";
    var ra := "Số CMND: <ID>";
    assert |whole| <= LabelAnchorMax;
    assert Prefix(whole, LabelAnchorMax) == whole;
    CmndLabelIsNotMoney();
    SanitizeCmndExample();
    CmndAnchorNotBlank();
    assert AddRule(rules, Rule(pageNum, ra, Id)) == rules + [Rule(pageNum, ra, Id)];
    assert StoreAnchor(rules, pageNum, whole, Id) == rules + [Rule(pageNum, ra, Id)];
  }

  function LabelMatchRules(p: Page, pageNum: nat, kind: Kind, ms: seq<LabelMatch>, rules: seq<Rule>): (out: seq<Rule>)
    ensures Grows(rules, out, pageNum)
    ensures NoDuplicates(rules) ==> NoDuplicates(out)
    ensures Keeps(rules, out)
    ensures forall lm | lm in ms && LabelPasses(p, lm) :: LabelRule(pageNum, kind, lm) in out
    ensures forall k | |rules| <= k < |out| :: FromLabels(p, pageNum, kind, ms, out[k])
    decreases |ms|
  {
    if ms == [] then rules
    else
      var next := LabelStep(p, pageNum, kind, ms[0], rules);
      var out := LabelMatchRules(p, pageNum, kind, ms[1..], next);
      KeepsTrans(rules, next, out);
      LabelMatchRulesFrom(p, pageNum, kind, ms, rules, next, out);
      out
  }

  /** The rule the first match appends, then the rules the rest append, come
      from the matches. */
  lemma LabelMatchRulesFrom(p: Page, pageNum: nat, kind: Kind, ms: seq<LabelMatch>,
                            rules: seq<Rule>, next: seq<Rule>, out: seq<Rule>)
    requires ms != [] && IsPrefix(next, out)
    requires next == if LabelPasses(p, ms[0]) then AddRule(rules, LabelRule(pageNum, kind, ms[0])) else rules
    requires forall k | |next| <= k < |out| :: FromLabels(p, pageNum, kind, ms[1..], out[k])
    ensures forall k | |rules| <= k < |out| :: FromLabels(p, pageNum, kind, ms, out[k])
  {
    forall k | |rules| <= k < |out| ensures FromLabels(p, pageNum, kind, ms, out[k]) {
      if k < |next| {
        assert out[k] == next[k] == LabelRule(pageNum, kind, ms[0]);
      } else {
        assert FromLabels(p, pageNum, kind, ms[1..], out[k]);
        var lm :| lm in ms[1..] && LabelPasses(p, lm) && out[k] == LabelRule(pageNum, kind, lm);
      }
    }
  }

  function LabelPatternRules(p: Page, pageNum: nat, labels: LabelFinder, lps: seq<LabelPattern>, rules: seq<Rule>): (out: seq<Rule>)
    ensures Grows(rules, out, pageNum)
    ensures NoDuplicates(rules) ==> NoDuplicates(out)
    ensures Keeps(rules, out)
    ensures forall lp, lm | lp in lps && lm in labels(lp, p.text) && LabelPasses(p, lm) ::
      LabelRule(pageNum, LabelKind(lp), lm) in out
    ensures forall k | |rules| <= k < |out| :: FromLabelPatterns(p, pageNum, labels, lps, out[k])
    decreases |lps|
  {
    if lps == [] then rules
    else
      var next := LabelMatchRules(p, pageNum, LabelKind(lps[0]), labels(lps[0], p.text), rules);
      var out := LabelPatternRules(p, pageNum, labels, lps[1..], next);
      KeepsTrans(rules, next, out);
      forall k | |rules| <= k < |out| ensures FromLabelPatterns(p, pageNum, labels, lps, out[k]) {
        if k < |next| {
          assert out[k] == next[k];
          assert FromLabels(p, pageNum, LabelKind(lps[0]), labels(lps[0], p.text), out[k]);
        } else {
          var lp :| lp in lps[1..] && FromLabels(p, pageNum, LabelKind(lp), labels(lp, p.text), out[k]);
        }
      }
      out
  }

  /** `r` is the rule of a passing match in `ms`. */
  predicate FromLabels(p: Page, pageNum: nat, kind: Kind, ms: seq<LabelMatch>, r: Rule) {
    exists lm | lm in ms :: LabelPasses(p, lm) && r == LabelRule(pageNum, kind, lm)
  }

  /** `r` is the rule of a passing match of one of the expressions `lps`. */
  predicate FromLabelPatterns(p: Page, pageNum: nat, labels: LabelFinder, lps: seq<LabelPattern>, r: Rule) {
    exists lp | lp in lps :: FromLabels(p, pageNum, LabelKind(lp), labels(lp, p.text), r)
  }

  /** Every label match on the page that passes the checks has its rule in
      `rules`. */
  predicate HasLabelRules(p: Page, pageNum: nat, labels: LabelFinder, rules: seq<Rule>) {
    forall lp, lm | lp in LabelPatterns && lm in labels(lp, p.text) && LabelPasses(p, lm) ::
      LabelRule(pageNum, LabelKind(lp), lm) in rules
  }

  /** `_add_label_rules(page, full_text, rules)`: every passing match of the
      three label expressions is stored. */
  function AddLabelRules(p: Page, pageNum: nat, labels: LabelFinder, rules: seq<Rule>): (out: seq<Rule>)
    ensures Grows(rules, out, pageNum)
    ensures NoDuplicates(rules) ==> NoDuplicates(out)
    ensures Keeps(rules, out)
    ensures HasLabelRules(p, pageNum, labels, out)
    ensures forall k | |rules| <= k < |out| :: FromLabelPatterns(p, pageNum, labels, LabelPatterns, out[k])
  {
    LabelPatternRules(p, pageNum, labels, LabelPatterns, rules)
  }

  /* -------------------------------------------------------- customer rects */

  /** The text around a rectangle, `r + (-200, -20, 200, 20)`, lower-cased,
      mentions a customer keyword. */
  predicate NearCustomerKeyword(p: Page, r: Rect, keywords: seq<string>) {
    ContainsAny(Lower(p.clipText(Offset(r, -200.0, -20.0, 200.0, 20.0))), keywords)
  }

  /** The occurrences of one name that have a customer keyword nearby. */
  function NameRects(p: Page, rs: seq<Rect>, keywords: seq<string>): (out: seq<Rect>)
    ensures forall r | r in out :: r in rs && NearCustomerKeyword(p, r, keywords)
    ensures forall r | r in rs && NearCustomerKeyword(p, r, keywords) :: r in out
    decreases |rs|
  {
    if rs == [] then []
    else (if NearCustomerKeyword(p, rs[0], keywords) then [rs[0]] else []) + NameRects(p, rs[1..], keywords)
  }

  function NamesRects(p: Page, names: seq<string>, keywords: seq<string>): (out: seq<Rect>)
    ensures forall r | r in out ::
      (NearCustomerKeyword(p, r, keywords) && exists k | 0 <= k < |names| :: r in p.search(names[k]))
    ensures forall k, r | 0 <= k < |names| && r in p.search(names[k]) && NearCustomerKeyword(p, r, keywords) ::
      r in out
    decreases |names|
  {
    if names == [] then []
    else
      var here := NameRects(p, p.search(names[0]), keywords);
      var rest := NamesRects(p, names[1..], keywords);
      assert forall k, r | 1 <= k < |names| && r in p.search(names[k]) && NearCustomerKeyword(p, r, keywords) ::
        r in rest by {
        forall k, r | 1 <= k < |names| && r in p.search(names[k]) && NearCustomerKeyword(p, r, keywords)
          ensures r in rest
        {
          assert names[1..][k - 1] == names[k];
        }
      }
      assert forall r | r in rest :: exists k | 0 <= k < |names| :: r in p.search(names[k]) by {
        forall r | r in rest
          ensures exists k | 0 <= k < |names| :: r in p.search(names[k])
        {
          var k :| 0 <= k < |names[1..]| && r in p.search(names[1..][k]);
          assert names[1..][k] == names[k + 1];
        }
      }
      here + rest
  }

  /** The occurrences of every customer keyword the lower-cased text contains. */
  function KeywordRects(p: Page, keywords: seq<string>): (out: seq<Rect>)
    ensures forall r | r in out :: exists k | 0 <= k < |keywords| ::
      Contains(Lower(p.text), keywords[k]) && r in p.search(keywords[k])
    ensures forall k, r | 0 <= k < |keywords| && Contains(Lower(p.text), keywords[k]) && r in p.search(keywords[k]) ::
      r in out
    decreases |keywords|
  {
    if keywords == [] then []
    else
      var here := if Contains(Lower(p.text), keywords[0]) then p.search(keywords[0]) else [];
      var rest := KeywordRects(p, keywords[1..]);
      assert forall k, r | 1 <= k < |keywords| && Contains(Lower(p.text), keywords[k]) && r in p.search(keywords[k]) ::
        r in rest by {
        forall k, r | 1 <= k < |keywords| && Contains(Lower(p.text), keywords[k]) && r in p.search(keywords[k])
          ensures r in rest
        {
          assert keywords[1..][k - 1] == keywords[k];
        }
      }
      assert forall r | r in rest :: exists k | 0 <= k < |keywords| ::
        Contains(Lower(p.text), keywords[k]) && r in p.search(keywords[k]) by {
        forall r | r in rest
          ensures exists k | 0 <= k < |keywords| ::
            Contains(Lower(p.text), keywords[k]) && r in p.search(keywords[k])
        {
          var k :| 0 <= k < |keywords[1..]| &&
            Contains(Lower(p.text), keywords[1..][k]) && r in p.search(keywords[1..][k]);
          assert keywords[1..][k] == keywords[k + 1];
        }
      }
      here + rest
  }

  /** The customer rectangles of a page: occurrences of the (distinct) person
      names with a customer keyword nearby, or, when there are none, the
      occurrences of every customer keyword the page mentions. */
  function CustomerRects(p: Page, names: seq<string>, keywords: seq<string>): (out: seq<Rect>)
    ensures NamesRects(p, Dedup(names), keywords) != [] ==> out == NamesRects(p, Dedup(names), keywords)
    ensures NamesRects(p, Dedup(names), keywords) == [] ==> out == KeywordRects(p, keywords)
    ensures forall r | r in out ::
      || (NearCustomerKeyword(p, r, keywords) && exists k | 0 <= k < |names| :: r in p.search(names[k]))
      || (exists k | 0 <= k < |keywords| :: Contains(Lower(p.text), keywords[k]) && r in p.search(keywords[k]))
  {
    var byName := NamesRects(p, Dedup(names), keywords);
    assert forall r | r in byName :: exists k | 0 <= k < |names| :: r in p.search(names[k]) by {
      forall r | r in byName
        ensures exists k | 0 <= k < |names| :: r in p.search(names[k])
      {
        var d := Dedup(names);
        var k :| 0 <= k < |d| && r in p.search(d[k]);
        assert d[k] in names;
        var k' :| 0 <= k' < |names| && names[k'] == d[k];
      }
    }
    if byName != [] then byName else KeywordRects(p, keywords)
  }

  /* ------------------------------------------------------------ candidates */

  /** The stripped texts of the words that fully match the ID or the phone
      expression. */
  function WordCandidates(words: seq<Word>): (out: seq<string>)
    ensures forall k | 0 <= k < |out| :: IdShape(out[k]) || PhoneShape(out[k])
    ensures forall w | w in words && (IdShape(Strip(w.text)) || PhoneShape(Strip(w.text))) :: Strip(w.text) in out
    decreases |words|
  {
    if words == [] then []
    else
      var t := Strip(words[0].text);
      var head := if IdShape(t) || PhoneShape(t) then [t] else [];
      var rest := WordCandidates(words[1..]);
      ShapedConcat(head, rest);
      head + rest
  }

  /** Joining two lists of ID- or phone-shaped texts keeps every text shaped. */
  lemma ShapedConcat(xs: seq<string>, ys: seq<string>)
    requires forall k | 0 <= k < |xs| :: IdShape(xs[k]) || PhoneShape(xs[k])
    requires forall k | 0 <= k < |ys| :: IdShape(ys[k]) || PhoneShape(ys[k])
    ensures forall k | 0 <= k < |xs + ys| :: IdShape((xs + ys)[k]) || PhoneShape((xs + ys)[k])
  {
    forall k | 0 <= k < |xs + ys|
      ensures IdShape((xs + ys)[k]) || PhoneShape((xs + ys)[k])
    {
      if k < |xs| {
        assert (xs + ys)[k] == xs[k];
      } else {
        assert (xs + ys)[k] == ys[k - |xs|];
      }
    }
  }

  /** `_gather_sensitive_from_words(page)`, or, when no word qualifies, the ID
      matches then the phone matches of the page text. */
  function SensitiveCandidates(p: Page): (out: seq<string>)
    ensures forall k | 0 <= k < |out| :: IdShape(out[k]) || PhoneShape(out[k])
    ensures WordCandidates(p.words) != [] ==> out == WordCandidates(p.words)
    ensures WordCandidates(p.words) == [] ==> out == FindIter(p.text, IdRun) + FindIter(p.text, PhoneRun)
  {
    var ws := WordCandidates(p.words);
    if ws != [] then ws else FindIter(p.text, IdRun) + FindIter(p.text, PhoneRun)
  }

  /** `ID_REGEX.pattern if ID_REGEX.search(s_text) else PHONE_REGEX.pattern`. */
  function CandidateKind(sText: string): Kind {
    if Search(sText, IdRun).Some? then Id else Phone
  }

  /** A candidate is classified ID exactly when it has the ID shape, and phone
      exactly when it has the phone shape. */
  lemma CandidateKindByShape(c: string)
    requires IdShape(c) || PhoneShape(c)
    ensures CandidateKind(c) == Id <==> IdShape(c)
    ensures CandidateKind(c) == Phone <==> PhoneShape(c)
  {
    FindsWholeRun(c, IdRun, false);
    ShapesDisjoint(c);
  }

  /* ---------------------------------------------------------------- anchors */

  /** The characters `_choose_anchor` strips from both ends of a word. */
  const AnchorStripChars: string := " .,;:-_()[]\"'`"

  /** The window left of a candidate where anchor words are looked for. */
  function LeftWindow(sr: Rect): Rect {
    Rect(sr.x0 - 300.0, sr.y0 - 5.0, sr.x0 - 1.0, sr.y1 + 5.0)
  }

  /** A word cleaned of punctuation: the class strips only the listed
      characters, the monolithic module strips whitespace first. */
  function CleanWord(w: string, legacy: bool): string {
    if legacy then StripBy(Strip(w), Chars(AnchorStripChars)) else StripBy(w, Chars(AnchorStripChars))
  }

  /** The cleaned words of two or more characters whose box meets the window. */
  function NearbyWords(words: seq<Word>, window: Rect, legacy: bool): (out: seq<string>)
    ensures forall s | s in out :: |s| > 1
    ensures forall w | w in words && Intersects(w.box, window) && |CleanWord(w.text, legacy)| > 1 ::
      CleanWord(w.text, legacy) in out
    decreases |words|
  {
    if words == [] then []
    else
      var w := CleanWord(words[0].text, legacy);
      (if Intersects(words[0].box, window) && |w| > 1 then [w] else [])
      + NearbyWords(words[1..], window, legacy)
  }

  /** Every nearby word is the cleaned text of a word whose box meets the
      window. */
  lemma {:induction false} NearbyWordsFromWindow(words: seq<Word>, window: Rect, legacy: bool)
    ensures forall s | s in NearbyWords(words, window, legacy) ::
      exists w | w in words :: Intersects(w.box, window) && s == CleanWord(w.text, legacy)
    decreases |words|
  {
    if words != [] {
      NearbyWordsFromWindow(words[1..], window, legacy);
      var w := CleanWord(words[0].text, legacy);
      var head := if Intersects(words[0].box, window) && |w| > 1 then [w] else [];
      var rest := NearbyWords(words[1..], window, legacy);
      assert NearbyWords(words, window, legacy) == head + rest;
      forall s | s in head + rest
        ensures exists x | x in words :: Intersects(x.box, window) && s == CleanWord(x.text, legacy)
      {
        if s in head {
          assert words[0] in words;
        } else {
          var x :| x in words[1..] && Intersects(x.box, window) && s == CleanWord(x.text, legacy);
          assert x in words;
        }
      }
    }
  }

  /** `_choose_anchor(page, sensitive_rect)`: the last three (or fewer) nearby
      words joined by spaces, provided the page contains that string. */
  function ChooseAnchor(p: Page, sr: Rect, legacy: bool): (a: Option<string>)
    ensures a.Some? ==> p.search(a.value) != []
    ensures a.Some? ==> exists ws: seq<string> ::
      && 1 <= |ws| <= 3 && a.value == JoinSpace(ws)
      && ws == LastN(NearbyWords(p.words, LeftWindow(sr), legacy), 3)
    ensures NearbyWords(p.words, LeftWindow(sr), legacy) == [] ==> a.None?
    ensures var near := NearbyWords(p.words, LeftWindow(sr), legacy);
      near != [] && p.search(JoinSpace(LastN(near, 3))) != [] ==> a == Some(JoinSpace(LastN(near, 3)))
  {
    var near := NearbyWords(p.words, LeftWindow(sr), legacy);
    if near == [] then None
    else
      var anchor := JoinSpace(LastN(near, 3));
      if p.search(anchor) == [] then None else Some(anchor)
  }

  /** The first customer keyword the lower-cased page text contains. */
  function FallbackAnchor(text: string, keywords: seq<string>): (a: Option<string>)
    ensures a.Some? ==> a.value in keywords && Contains(Lower(text), a.value)
    ensures a.None? ==> !ContainsAny(Lower(text), keywords)
    decreases |keywords|
  {
    if keywords == [] then None
    else if Contains(Lower(text), keywords[0]) then Some(keywords[0])
    else
      var a := FallbackAnchor(text, keywords[1..]);
      assert !ContainsAny(Lower(text), keywords[1..]) ==> !ContainsAny(Lower(text), keywords) by {
        if ContainsAny(Lower(text), keywords) {
          var i :| 0 <= i < |keywords| && Contains(Lower(text), keywords[i]);
          assert i > 0 && keywords[1..][i - 1] == keywords[i];
        }
      }
      a
  }

  /* -------------------------------------------------------- proximity rules */

  /** Candidates further than this from the customer rectangle, vertically,
      are skipped. */
  const MaxCustomerDistance: real := 120.0

  /** An anchor that is present, not blank and names no money field. */
  predicate UsableAnchor(anchor: Option<string>) {
    anchor.Some? && !IsBlank(anchor.value) && !ContainsAny(Lower(anchor.value), MoneyWords)
  }

  /** Keep an anchor unless it is missing, blank or names a money field. */
  function AnchorRule(rules: seq<Rule>, pageNum: nat, anchor: Option<string>, kind: Kind): (out: seq<Rule>)
    ensures Grows(rules, out, pageNum)
    ensures NoDuplicates(rules) ==> NoDuplicates(out)
    ensures anchor.None? || IsBlank(anchor.value) ==> out == rules
    ensures anchor.Some? && ContainsAny(Lower(anchor.value), MoneyWords) ==> out == rules
    ensures |out| > |rules| ==> out[|rules|].pattern == kind
    ensures Keeps(rules, out)
    ensures UsableAnchor(anchor) ==> Rule(pageNum, SanitizeAnchor(anchor.value), kind) in out
    ensures out == if UsableAnchor(anchor) then AddRule(rules, Rule(pageNum, SanitizeAnchor(anchor.value), kind))
                   else rules
  {
    if anchor.None? || IsBlank(anchor.value) then rules
    else if ContainsAny(Lower(anchor.value), MoneyWords) then rules
    else
      SanitizeKeepsNonBlank(anchor.value);
      StoreAnchor(rules, pageNum, anchor.value, kind)
  }

  /** The anchor `learn` settles on for an occurrence `sr`: the chosen nearby
      words unless there are none, else the first customer keyword the page
      mentions. */
  function ProximityAnchor(p: Page, sr: Rect, keywords: seq<string>, legacy: bool): Option<string> {
    var chosen := ChooseAnchor(p, sr, legacy);
    if chosen.Some? && chosen.value != [] then chosen else FallbackAnchor(p.text, keywords)
  }

  /** The occurrence is close enough to the customer rectangle (or there is
      none) and its anchor is usable. */
  predicate ProximityPasses(p: Page, cr: Option<Rect>, sr: Rect, keywords: seq<string>, legacy: bool) {
    && (cr.None? || Abs(cr.value.y0 - sr.y0) < MaxCustomerDistance)
    && UsableAnchor(ProximityAnchor(p, sr, keywords, legacy))
  }

  /** If the occurrence passes, `rules` holds its sanitised anchor, classified
      by the candidate's shape. */
  predicate HasProximityRule(p: Page, pageNum: nat, cr: Option<Rect>, sText: string, sr: Rect,
                             keywords: seq<string>, legacy: bool, rules: seq<Rule>) {
    ProximityPasses(p, cr, sr, keywords, legacy) ==>
      Rule(pageNum, SanitizeAnchor(ProximityAnchor(p, sr, keywords, legacy).value), CandidateKind(sText)) in rules
  }

  lemma HasProximityRuleKept(p: Page, pageNum: nat, cr: Option<Rect>, sText: string, sr: Rect,
                             keywords: seq<string>, legacy: bool, a: seq<Rule>, b: seq<Rule>)
    requires HasProximityRule(p, pageNum, cr, sText, sr, keywords, legacy, a) && Keeps(a, b)
    ensures HasProximityRule(p, pageNum, cr, sText, sr, keywords, legacy, b)
  {
  }

  /** The rule a passing occurrence stores: its sanitised anchor, classified
      by the candidate's shape. */
  function ProximityRule(p: Page, pageNum: nat, sText: string, sr: Rect, keywords: seq<string>, legacy: bool): Rule
    requires ProximityAnchor(p, sr, keywords, legacy).Some?
  {
    Rule(pageNum, SanitizeAnchor(ProximityAnchor(p, sr, keywords, legacy).value), CandidateKind(sText))
  }

  /** `r` is the rule occurrence `sr` of candidate `sText` stores. */
  predicate FromOccurrence(p: Page, pageNum: nat, cr: Option<Rect>, sText: string, sr: Rect,
                           keywords: seq<string>, legacy: bool, r: Rule) {
    ProximityPasses(p, cr, sr, keywords, legacy) && r == ProximityRule(p, pageNum, sText, sr, keywords, legacy)
  }

  /** `r` is the rule one of the occurrences `srs` stores. */
  predicate FromOccurrences(p: Page, pageNum: nat, cr: Option<Rect>, sText: string, srs: seq<Rect>,
                            keywords: seq<string>, legacy: bool, r: Rule) {
    exists sr | sr in srs :: FromOccurrence(p, pageNum, cr, sText, sr, keywords, legacy, r)
  }

  /** `r` is the rule some occurrence of one of the candidates stores. */
  predicate FromCandidates(p: Page, pageNum: nat, cr: Option<Rect>, cands: seq<string>,
                           keywords: seq<string>, legacy: bool, r: Rule) {
    exists c | c in cands :: FromOccurrences(p, pageNum, cr, c, p.search(c), keywords, legacy, r)
  }

  /** The same, for one of the customer slots. */
  predicate FromSlots(p: Page, pageNum: nat, crs: seq<Option<Rect>>, cands: seq<string>,
                      keywords: seq<string>, legacy: bool, r: Rule) {
    exists cr | cr in crs :: FromCandidates(p, pageNum, cr, cands, keywords, legacy, r)
  }

  /** One occurrence `sr` of candidate `sText`, for customer rectangle `cr`
      (`None` when the page has none). */
  function ProximityStep(p: Page, pageNum: nat, cr: Option<Rect>, sText: string, sr: Rect,
                         keywords: seq<string>, legacy: bool, rules: seq<Rule>): (out: seq<Rule>)
    ensures Grows(rules, out, pageNum)
    ensures NoDuplicates(rules) ==> NoDuplicates(out)
    ensures cr.Some? && Abs(cr.value.y0 - sr.y0) >= MaxCustomerDistance ==> out == rules
    ensures |out| > |rules| ==> out[|rules|].pattern == CandidateKind(sText)
    ensures Keeps(rules, out)
    ensures HasProximityRule(p, pageNum, cr, sText, sr, keywords, legacy, out)
    ensures out == if ProximityPasses(p, cr, sr, keywords, legacy)
                   then AddRule(rules, ProximityRule(p, pageNum, sText, sr, keywords, legacy))
                   else rules
  {
    if cr.Some? && Abs(cr.value.y0 - sr.y0) >= MaxCustomerDistance then rules
    else AnchorRule(rules, pageNum, ProximityAnchor(p, sr, keywords, legacy), CandidateKind(sText))
  }

  function OccurrenceRules(p: Page, pageNum: nat, cr: Option<Rect>, sText: string, srs: seq<Rect>,
                           keywords: seq<string>, legacy: bool, rules: seq<Rule>): (out: seq<Rule>)
    ensures Grows(rules, out, pageNum)
    ensures NoDuplicates(rules) ==> NoDuplicates(out)
    ensures Keeps(rules, out)
    ensures forall sr | sr in srs :: HasProximityRule(p, pageNum, cr, sText, sr, keywords, legacy, out)
    ensures forall k | |rules| <= k < |out| :: FromOccurrences(p, pageNum, cr, sText, srs, keywords, legacy, out[k])
    decreases |srs|
  {
    if srs == [] then rules
    else
      var next := ProximityStep(p, pageNum, cr, sText, srs[0], keywords, legacy, rules);
      var out := OccurrenceRules(p, pageNum, cr, sText, srs[1..], keywords, legacy, next);
      KeepsTrans(rules, next, out);
      HasProximityRuleKept(p, pageNum, cr, sText, srs[0], keywords, legacy, next, out);
      OccurrenceRulesFrom(p, pageNum, cr, sText, srs, keywords, legacy, rules, next, out);
      out
  }

  /** The rules one occurrence appends, then the rules the rest append, come
      from the occurrences. */
  lemma OccurrenceRulesFrom(p: Page, pageNum: nat, cr: Option<Rect>, sText: string, srs: seq<Rect>,
                            keywords: seq<string>, legacy: bool, rules: seq<Rule>, next: seq<Rule>, out: seq<Rule>)
    requires srs != [] && |rules| <= |next| && IsPrefix(next, out)
    requires next == if ProximityPasses(p, cr, srs[0], keywords, legacy)
                     then AddRule(rules, ProximityRule(p, pageNum, sText, srs[0], keywords, legacy))
                     else rules
    requires forall k | |next| <= k < |out| :: FromOccurrences(p, pageNum, cr, sText, srs[1..], keywords, legacy, out[k])
    ensures forall k | |rules| <= k < |out| :: FromOccurrences(p, pageNum, cr, sText, srs, keywords, legacy, out[k])
  {
    forall k | |rules| <= k < |out| ensures FromOccurrences(p, pageNum, cr, sText, srs, keywords, legacy, out[k]) {
      if k < |next| {
        assert out[k] == next[k];
        assert FromOccurrence(p, pageNum, cr, sText, srs[0], keywords, legacy, out[k]);
      } else {
        assert FromOccurrences(p, pageNum, cr, sText, srs[1..], keywords, legacy, out[k]);
        var sr :| sr in srs[1..] && FromOccurrence(p, pageNum, cr, sText, sr, keywords, legacy, out[k]);
      }
    }
  }

  function CandidateRules(p: Page, pageNum: nat, cr: Option<Rect>, cands: seq<string>,
                          keywords: seq<string>, legacy: bool, rules: seq<Rule>): (out: seq<Rule>)
    ensures Grows(rules, out, pageNum)
    ensures NoDuplicates(rules) ==> NoDuplicates(out)
    ensures Keeps(rules, out)
    ensures forall c, sr | c in cands && sr in p.search(c) ::
      HasProximityRule(p, pageNum, cr, c, sr, keywords, legacy, out)
    ensures forall k | |rules| <= k < |out| :: FromCandidates(p, pageNum, cr, cands, keywords, legacy, out[k])
    decreases |cands|
  {
    if cands == [] then rules
    else
      var next := OccurrenceRules(p, pageNum, cr, cands[0], p.search(cands[0]), keywords, legacy, rules);
      var out := CandidateRules(p, pageNum, cr, cands[1..], keywords, legacy, next);
      KeepsTrans(rules, next, out);
      forall k | |rules| <= k < |out| ensures FromCandidates(p, pageNum, cr, cands, keywords, legacy, out[k]) {
        if k < |next| {
          assert out[k] == next[k];
          assert FromOccurrences(p, pageNum, cr, cands[0], p.search(cands[0]), keywords, legacy, out[k]);
        } else {
          var c :| c in cands[1..] && FromOccurrences(p, pageNum, cr, c, p.search(c), keywords, legacy, out[k]);
        }
      }
      forall sr | sr in p.search(cands[0])
        ensures HasProximityRule(p, pageNum, cr, cands[0], sr, keywords, legacy, out)
      {
        HasProximityRuleKept(p, pageNum, cr, cands[0], sr, keywords, legacy, next, out);
      }
      out
  }

  function CustomerLoopRules(p: Page, pageNum: nat, crs: seq<Option<Rect>>, cands: seq<string>,
                             keywords: seq<string>, legacy: bool, rules: seq<Rule>): (out: seq<Rule>)
    ensures Grows(rules, out, pageNum)
    ensures NoDuplicates(rules) ==> NoDuplicates(out)
    ensures Keeps(rules, out)
    ensures forall cr, c, sr | cr in crs && c in cands && sr in p.search(c) ::
      HasProximityRule(p, pageNum, cr, c, sr, keywords, legacy, out)
    ensures forall k | |rules| <= k < |out| :: FromSlots(p, pageNum, crs, cands, keywords, legacy, out[k])
    decreases |crs|
  {
    if crs == [] then rules
    else
      var next := CandidateRules(p, pageNum, crs[0], cands, keywords, legacy, rules);
      var out := CustomerLoopRules(p, pageNum, crs[1..], cands, keywords, legacy, next);
      KeepsTrans(rules, next, out);
      forall k | |rules| <= k < |out| ensures FromSlots(p, pageNum, crs, cands, keywords, legacy, out[k]) {
        if k < |next| {
          assert out[k] == next[k];
          assert FromCandidates(p, pageNum, crs[0], cands, keywords, legacy, out[k]);
        } else {
          assert FromSlots(p, pageNum, crs[1..], cands, keywords, legacy, out[k]);
          var cr :| cr in crs[1..] && FromCandidates(p, pageNum, cr, cands, keywords, legacy, out[k]);
        }
      }
      forall c, sr | c in cands && sr in p.search(c)
        ensures HasProximityRule(p, pageNum, crs[0], c, sr, keywords, legacy, out)
      {
        HasProximityRuleKept(p, pageNum, crs[0], c, sr, keywords, legacy, next, out);
      }
      out
  }

  /** `for customer_rect in (customer_rects if customer_rects else [None])`. */
  function CustomerSlots(rs: seq<Rect>): (out: seq<Option<Rect>>)
    ensures rs == [] ==> out == [None]
    ensures rs != [] ==> |out| == |rs| && forall k | 0 <= k < |rs| :: out[k] == Some(rs[k])
  {
    if rs == [] then [None] else seq(|rs|, k requires 0 <= k < |rs| => Some(rs[k]))
  }

  /* ------------------------------------------------------------- learning */

  /** The person names the learner asks for: none when the NER step is
      skipped (`RULES_ONLY=1` or no pipeline). */
  function PersonNames(ner: Option<PersonFinder>, rulesOnly: bool, text: string): seq<string> {
    if rulesOnly || ner.None? then [] else ner.value(text)
  }

  /** Every sensitive occurrence of the page, for every customer slot, has
      its proximity rule in `rules`. */
  predicate HasProximityRules(l: Learner, p: Page, pageNum: nat, ner: Option<PersonFinder>, rulesOnly: bool,
                              rules: seq<Rule>) {
    var keywords := LearnerKeywords(l.keywords);
    var crs := CustomerSlots(CustomerRects(p, PersonNames(ner, rulesOnly, p.text), keywords));
    forall cr, c, sr | cr in crs && c in SensitiveCandidates(p) && sr in p.search(c) ::
      HasProximityRule(p, pageNum, cr, c, sr, keywords, l.legacy, rules)
  }

  /** Both kinds of rule a page with text contributes. */
  predicate HasPageRules(l: Learner, doc: Doc, pageNum: nat, ner: Option<PersonFinder>, rulesOnly: bool,
                         rules: seq<Rule>)
    requires pageNum < |doc.pages|
  {
    var p := doc.pages[pageNum];
    HasText(p.text) ==> HasLabelRules(p, pageNum, l.labels, rules) && HasProximityRules(l, p, pageNum, ner, rulesOnly, rules)
  }

  lemma HasPageRulesKept(l: Learner, doc: Doc, pageNum: nat, ner: Option<PersonFinder>, rulesOnly: bool,
                         a: seq<Rule>, b: seq<Rule>)
    requires pageNum < |doc.pages|
    requires HasPageRules(l, doc, pageNum, ner, rulesOnly, a) && Keeps(a, b)
    ensures HasPageRules(l, doc, pageNum, ner, rulesOnly, b)
  {
    var p := doc.pages[pageNum];
    var keywords := LearnerKeywords(l.keywords);
    var crs := CustomerSlots(CustomerRects(p, PersonNames(ner, rulesOnly, p.text), keywords));
    if HasText(p.text) {
      forall cr, c, sr | cr in crs && c in SensitiveCandidates(p) && sr in p.search(c)
        ensures HasProximityRule(p, pageNum, cr, c, sr, keywords, l.legacy, b)
      {
        HasProximityRuleKept(p, pageNum, cr, c, sr, keywords, l.legacy, a, b);
      }
    }
  }

  /** One page of `learn`: nothing for a page without text, else its label
      rules, then its proximity rules. */
  function LearnPage(l: Learner, doc: Doc, pageNum: nat, ner: Option<PersonFinder>, rulesOnly: bool,
                     rules: seq<Rule>): (out: seq<Rule>)
    requires pageNum < |doc.pages|
    ensures Grows(rules, out, pageNum)
    ensures NoDuplicates(rules) ==> NoDuplicates(out)
    ensures IsBlank(doc.pages[pageNum].text) ==> out == rules
    ensures Keeps(rules, out)
    ensures LearnedRules(doc, rules) ==> LearnedRules(doc, out)
    ensures forall k | |rules| <= k < |out| :: PageOrigin(l, doc, pageNum, ner, rulesOnly, out[k])
  {
    var p := doc.pages[pageNum];
    HasTextIffNotBlank(p.text);
    if IsBlank(p.text) then rules
    else
      var keywords := LearnerKeywords(l.keywords);
      var customer := CustomerRects(p, PersonNames(ner, rulesOnly, p.text), keywords);
      var cands := SensitiveCandidates(p);
      var withLabels := AddLabelRules(p, pageNum, l.labels, rules);
      var out := CustomerLoopRules(p, pageNum, CustomerSlots(customer), cands, keywords, l.legacy, withLabels);
      KeepsTrans(rules, withLabels, out);
      LearnedRulesGrow(doc, pageNum, rules, out);
      PageRulesFrom(l, doc, pageNum, ner, rulesOnly, rules, withLabels, out);
      out
  }

  /** The rules the label pass appends, then the rules the proximity pass
      appends, come from the page. */
  lemma PageRulesFrom(l: Learner, doc: Doc, pageNum: nat, ner: Option<PersonFinder>, rulesOnly: bool,
                      rules: seq<Rule>, withLabels: seq<Rule>, out: seq<Rule>)
    requires pageNum < |doc.pages| && HasText(doc.pages[pageNum].text)
    requires |rules| <= |withLabels| && IsPrefix(withLabels, out)
    requires forall k | |rules| <= k < |withLabels| ::
      FromLabelPatterns(doc.pages[pageNum], pageNum, l.labels, LabelPatterns, withLabels[k])
    requires var p := doc.pages[pageNum];
      var keywords := LearnerKeywords(l.keywords);
      var crs := CustomerSlots(CustomerRects(p, PersonNames(ner, rulesOnly, p.text), keywords));
      forall k | |withLabels| <= k < |out| :: FromSlots(p, pageNum, crs, SensitiveCandidates(p), keywords, l.legacy, out[k])
    ensures forall k | |rules| <= k < |out| :: PageOrigin(l, doc, pageNum, ner, rulesOnly, out[k])
  {
    forall k | |rules| <= k < |out| ensures PageOrigin(l, doc, pageNum, ner, rulesOnly, out[k]) {
      if k < |withLabels| {
        assert out[k] == withLabels[k];
      }
    }
  }

  /** `r` is a rule page `pageNum` of a page with text gives: the rule of a
      passing label match, or the rule some passing occurrence of a sensitive
      candidate stores for one of the customer slots. */
  predicate PageOrigin(l: Learner, doc: Doc, pageNum: nat, ner: Option<PersonFinder>, rulesOnly: bool, r: Rule)
    requires pageNum < |doc.pages|
  {
    var p := doc.pages[pageNum];
    var keywords := LearnerKeywords(l.keywords);
    var crs := CustomerSlots(CustomerRects(p, PersonNames(ner, rulesOnly, p.text), keywords));
    && HasText(p.text)
    && (|| FromLabelPatterns(p, pageNum, l.labels, LabelPatterns, r)
        || FromSlots(p, pageNum, crs, SensitiveCandidates(p), keywords, l.legacy, r))
  }

  /** `r` is a rule its own page gives. */
  predicate LearnedFrom(l: Learner, doc: Doc, ner: Option<PersonFinder>, rulesOnly: bool, r: Rule) {
    r.page < |doc.pages| && PageOrigin(l, doc, r.page, ner, rulesOnly, r)
  }

  /** A page with text leaves every passing label match and every usable
      proximity anchor in the rules it returns. */
  lemma LearnPageHasPageRules(l: Learner, doc: Doc, pageNum: nat, ner: Option<PersonFinder>, rulesOnly: bool,
                              rules: seq<Rule>)
    requires pageNum < |doc.pages|
    ensures HasPageRules(l, doc, pageNum, ner, rulesOnly, LearnPage(l, doc, pageNum, ner, rulesOnly, rules))
  {
    HasTextIffNotBlank(doc.pages[pageNum].text);
  }

  /** What `learn` promises of every rule list it returns for `doc`. */
  predicate LearnedRules(doc: Doc, rules: seq<Rule>) {
    && NoDuplicates(rules)
    && forall k | 0 <= k < |rules| ::
         && rules[k].page < |doc.pages|
         && !IsBlank(doc.pages[rules[k].page].text)
         && GoodRule(rules[k])
  }

  /** Appending good rules of a page with text, without duplicates, keeps
      the learned-rules invariant. */
  lemma LearnedRulesGrow(doc: Doc, pageNum: nat, rules: seq<Rule>, out: seq<Rule>)
    requires pageNum < |doc.pages| && !IsBlank(doc.pages[pageNum].text)
    requires Grows(rules, out, pageNum) && (NoDuplicates(rules) ==> NoDuplicates(out))
    ensures LearnedRules(doc, rules) ==> LearnedRules(doc, out)
  {
    if LearnedRules(doc, rules) {
      forall k | 0 <= k < |out|
        ensures out[k].page < |doc.pages| && !IsBlank(doc.pages[out[k].page].text) && GoodRule(out[k])
      {
        if k < |rules| {
          assert out[k] == rules[k];
        }
      }
    }
  }

  /** The page loop of `learn`: `step` applied to pages `0 .. k - 1`, in
      order, starting from no rules. */
  function FoldPages(step: (nat, seq<Rule>) -> seq<Rule>, k: nat): seq<Rule> {
    if k == 0 then [] else step(k - 1, FoldPages(step, k - 1))
  }

  /** A step that only appends to the rules it is given. */
  ghost predicate AppendsOnly(step: (nat, seq<Rule>) -> seq<Rule>) {
    forall pg: nat, rs: seq<Rule> :: IsPrefix(rs, step(pg, rs))
  }

  /** With an appending step, the rules after `j` pages are a prefix of the
      rules after `k >= j` pages. */
  lemma {:induction false} FoldPagesPrefix(step: (nat, seq<Rule>) -> seq<Rule>, j: nat, k: nat)
    requires AppendsOnly(step)
    requires j <= k
    ensures IsPrefix(FoldPages(step, j), FoldPages(step, k))
    decreases k - j
  {
    if j < k {
      FoldPagesPrefix(step, j, k - 1);
      PrefixTrans(FoldPages(step, j), FoldPages(step, k - 1), FoldPages(step, k));
    }
  }

  /** A property of rule lists that holds of no rules and that every step of
      the first `k` pages preserves holds after them. */
  lemma {:induction false} FoldPagesInvariant(step: (nat, seq<Rule>) -> seq<Rule>, inv: seq<Rule> -> bool, k: nat)
    requires inv([])
    requires forall pg: nat, rs: seq<Rule> | pg < k && inv(rs) :: inv(step(pg, rs))
    ensures inv(FoldPages(step, k))
  {
    if k > 0 {
      FoldPagesInvariant(step, inv, k - 1);
    }
  }

  lemma FoldPagesLast(step: (nat, seq<Rule>) -> seq<Rule>, k: nat)
    requires k > 0
    ensures FoldPages(step, k) == step(k - 1, FoldPages(step, k - 1))
  {
  }

  /** One page of `learn` as a step of the page loop. */
  function PageStep(l: Learner, doc: Doc, ner: Option<PersonFinder>, rulesOnly: bool): (nat, seq<Rule>) -> seq<Rule> {
    (pg: nat, rs: seq<Rule>) => if pg < |doc.pages| then LearnPage(l, doc, pg, ner, rulesOnly, rs) else rs
  }

  lemma PageStepApply(l: Learner, doc: Doc, pg: nat, ner: Option<PersonFinder>, rulesOnly: bool, rs: seq<Rule>)
    requires pg < |doc.pages|
    ensures PageStep(l, doc, ner, rulesOnly)(pg, rs) == LearnPage(l, doc, pg, ner, rulesOnly, rs)
  {
  }

  lemma PageStepAppends(l: Learner, doc: Doc, ner: Option<PersonFinder>, rulesOnly: bool)
    ensures AppendsOnly(PageStep(l, doc, ner, rulesOnly))
  {
    var step := PageStep(l, doc, ner, rulesOnly);
    forall pg: nat, rs: seq<Rule> ensures IsPrefix(rs, step(pg, rs)) {
      if pg < |doc.pages| {
        var out := LearnPage(l, doc, pg, ner, rulesOnly, rs);
        assert Grows(rs, out, pg);
      }
    }
  }

  lemma PageStepLearned(l: Learner, doc: Doc, ner: Option<PersonFinder>, rulesOnly: bool)
    ensures LearnedRules(doc, FoldPages(PageStep(l, doc, ner, rulesOnly), |doc.pages|))
  {
    var step := PageStep(l, doc, ner, rulesOnly);
    var inv := (rs: seq<Rule>) => LearnedRules(doc, rs);
    forall pg: nat, rs: seq<Rule> | pg < |doc.pages| && inv(rs) ensures inv(step(pg, rs)) {
      var out := LearnPage(l, doc, pg, ner, rulesOnly, rs);
      assert LearnedRules(doc, out);
    }
    FoldPagesInvariant(step, inv, |doc.pages|);
  }

  /** Every page with text leaves its label and proximity rules in what
      `learn` returns. */
  lemma PageStepHasPageRules(l: Learner, doc: Doc, pg: nat, ner: Option<PersonFinder>, rulesOnly: bool)
    requires pg < |doc.pages|
    ensures HasPageRules(l, doc, pg, ner, rulesOnly, FoldPages(PageStep(l, doc, ner, rulesOnly), |doc.pages|))
  {
    var step := PageStep(l, doc, ner, rulesOnly);
    var given := FoldPages(step, pg);
    var here := FoldPages(step, pg + 1);
    var all := FoldPages(step, |doc.pages|);
    FoldPagesLast(step, pg + 1);
    PageStepApply(l, doc, pg, ner, rulesOnly, given);
    LearnPageHasPageRules(l, doc, pg, ner, rulesOnly, given);
    PageStepAppends(l, doc, ner, rulesOnly);
    FoldPagesPrefix(step, pg + 1, |doc.pages|);
    PrefixKeeps(here, all);
    HasPageRulesKept(l, doc, pg, ner, rulesOnly, here, all);
  }

  /** `RuleLearner.learn(doc, nlp_pipeline)`: the learned rules are free of
      duplicates, each names a page of the document that has text, and each
      anchor is a non-blank sanitised string; conversely every page with text
      contributes all its passing label rules and proximity rules. */
  function Learn(l: Learner, doc: Doc, ner: Option<PersonFinder>, rulesOnly: bool): (rules: seq<Rule>)
    ensures LearnedRules(doc, rules)
    ensures forall pg | 0 <= pg < |doc.pages| :: HasPageRules(l, doc, pg, ner, rulesOnly, rules)
  {
    var rules := FoldPages(PageStep(l, doc, ner, rulesOnly), |doc.pages|);
    PageStepLearned(l, doc, ner, rulesOnly);
    assert forall pg | 0 <= pg < |doc.pages| :: HasPageRules(l, doc, pg, ner, rulesOnly, rules) by {
      forall pg | 0 <= pg < |doc.pages|
        ensures HasPageRules(l, doc, pg, ner, rulesOnly, rules)
      {
        PageStepHasPageRules(l, doc, pg, ner, rulesOnly);
      }
    }
    rules
  }

  /** One page keeps every rule given by its own page so: the rules it
      appends are its own page's. */
  lemma LearnPageSound(l: Learner, doc: Doc, pg: nat, ner: Option<PersonFinder>, rulesOnly: bool, rs: seq<Rule>)
    requires pg < |doc.pages|
    requires forall r | r in rs :: LearnedFrom(l, doc, ner, rulesOnly, r)
    ensures forall r | r in LearnPage(l, doc, pg, ner, rulesOnly, rs) :: LearnedFrom(l, doc, ner, rulesOnly, r)
  {
    var out := LearnPage(l, doc, pg, ner, rulesOnly, rs);
    forall r | r in out ensures LearnedFrom(l, doc, ner, rulesOnly, r) {
      var k :| 0 <= k < |out| && out[k] == r;
      if k >= |rs| {
        assert out[k].page == pg && PageOrigin(l, doc, pg, ner, rulesOnly, out[k]);
      } else {
        assert out[k] == rs[k];
      }
    }
  }

  /** The page loop keeps only rules given by their own pages. */
  lemma FoldPagesSound(l: Learner, doc: Doc, ner: Option<PersonFinder>, rulesOnly: bool)
    ensures forall r | r in FoldPages(PageStep(l, doc, ner, rulesOnly), |doc.pages|) ::
      LearnedFrom(l, doc, ner, rulesOnly, r)
  {
    var step := PageStep(l, doc, ner, rulesOnly);
    var inv := (rs: seq<Rule>) => forall r | r in rs :: LearnedFrom(l, doc, ner, rulesOnly, r);
    forall pg: nat, rs: seq<Rule> | pg < |doc.pages| && inv(rs) ensures inv(step(pg, rs)) {
      PageStepApply(l, doc, pg, ner, rulesOnly, rs);
      LearnPageSound(l, doc, pg, ner, rulesOnly, rs);
    }
    FoldPagesInvariant(step, inv, |doc.pages|);
  }

  /** `learn` stores only rules the pages give: every rule it returns is a
      passing label match's or a passing proximity occurrence's of its own
      page. */
  lemma LearnSound(l: Learner, doc: Doc, ner: Option<PersonFinder>, rulesOnly: bool)
    ensures forall r | r in Learn(l, doc, ner, rulesOnly) :: LearnedFrom(l, doc, ner, rulesOnly, r)
  {
    FoldPagesSound(l, doc, ner, rulesOnly);
  }

  /** A rule is learned exactly when its own page gives it: `learn` stores
      every passing label match and proximity occurrence, and nothing else. */
  lemma LearnExact(l: Learner, doc: Doc, ner: Option<PersonFinder>, rulesOnly: bool, r: Rule)
    ensures r in Learn(l, doc, ner, rulesOnly) <==> LearnedFrom(l, doc, ner, rulesOnly, r)
  {
    var rules := Learn(l, doc, ner, rulesOnly);
    LearnSound(l, doc, ner, rulesOnly);
    if LearnedFrom(l, doc, ner, rulesOnly, r) {
      var pg := r.page;
      var p := doc.pages[pg];
      var keywords := LearnerKeywords(l.keywords);
      var crs := CustomerSlots(CustomerRects(p, PersonNames(ner, rulesOnly, p.text), keywords));
      assert HasPageRules(l, doc, pg, ner, rulesOnly, rules);
      if FromLabelPatterns(p, pg, l.labels, LabelPatterns, r) {
        var lp :| lp in LabelPatterns && FromLabels(p, pg, LabelKind(lp), l.labels(lp, p.text), r);
        var lm :| lm in l.labels(lp, p.text) && LabelPasses(p, lm) && r == LabelRule(pg, LabelKind(lp), lm);
        assert HasLabelRules(p, pg, l.labels, rules);
      } else {
        assert FromSlots(p, pg, crs, SensitiveCandidates(p), keywords, l.legacy, r);
        var cr :| cr in crs && FromCandidates(p, pg, cr, SensitiveCandidates(p), keywords, l.legacy, r);
        var c :| c in SensitiveCandidates(p) && FromOccurrences(p, pg, cr, c, p.search(c), keywords, l.legacy, r);
        var sr :| sr in p.search(c) && FromOccurrence(p, pg, cr, c, sr, keywords, l.legacy, r);
        assert HasProximityRules(l, p, pg, ner, rulesOnly, rules);
        assert HasProximityRule(p, pg, cr, c, sr, keywords, l.legacy, rules);
      }
    }
  }

  /** A page whose text is not blank and on which the `Số CMND` expression
      matches `Số CMND: 012345678`, with that number on the page, yields the
      rule anchored on `Số CMND: <ID>` with the ID pattern: learning on such a
      page stores at least one rule. */
  lemma LearnCmndExample(l: Learner, doc: Doc, k: nat, ner: Option<PersonFinder>, rulesOnly: bool)
    requires k < |doc.pages|
    requires !IsBlank(doc.pages[k].text)
    requires LabelMatch("Số CMND: 012345678", "012345678") in l.labels(CmndLabel, doc.pages[k].text)
    requires doc.pages[k].search("012345678") != []
    ensures Rule(k, "Số CMND: <ID>", Id) in Learn(l, doc, ner, rulesOnly)
    ensures Learn(l, doc, ner, rulesOnly) != []
  {
    var p := doc.pages[k];
    var whole := "Số CMND: 012345678";
    var lm := LabelMatch(whole, "012345678");
    var rules := Learn(l, doc, ner, rulesOnly);
    assert HasPageRules(l, doc, k, ner, rulesOnly, rules);
    HasTextIffNotBlank(p.text);
    assert HasLabelRules(p, k, l.labels, rules);
    assert |whole| <= LabelAnchorMax;
    assert Prefix(whole, LabelAnchorMax) == whole;
    CmndLabelIsNotMoney();
    assert !IsSpace(whole[0]);
    assert LabelPasses(p, lm);
    assert CmndLabel in LabelPatterns;
    assert LabelRule(k, LabelKind(CmndLabel), lm) in rules;
    SanitizeCmndExample();
    assert LabelRule(k, LabelKind(CmndLabel), lm) == Rule(k, "Số CMND: <ID>", Id);
  }
}
