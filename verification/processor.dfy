/** `PDFProcessor.process_pdf_final` of `processor.py`: fingerprint the
    document, reuse the cached rules on a hit, otherwise learn rules, apply
    them and cache their sanitised form under the fingerprint.

    Opening the file is the parameter `file` (`None` when it cannot be
    opened); saving it and the logging around it are not modelled. The
    processor's mutable state, the knowledge base and its redactor's probe,
    is passed in and returned. */
module Processor {
  import opened Text
  import opened Basics
  import opened Constants
  import opened DigitRuns
  import opened Geometry
  import opened Document
  import opened Config
  import opened KnowledgeBase
  import opened RuleLearner
  import opened Redactor

  /** The environment switches read by the processor and what it calls:
      `RULES_ONLY=1` and `ALLOW_PAGE_WIDE_FALLBACK=1`. */
  datatype Env = Env(rulesOnly: bool, allowPageWide: bool)

  /** A processor's state between documents. */
  datatype State = State(kb: Kb, probe: ProbeState)

  /** The returned redaction count and the state afterwards. */
  datatype Outcome = Outcome(count: nat, state: State)

  /** One call of `process_pdf_final` with its learner, configuration and NER
      pipeline `ner`, `hash` standing for the SHA-256 hex digest. */
  function ProcessPdf(cfg: Config, l: Learner, env: Env, ner: Option<PersonFinder>, hash: string -> string,
                      st: State, file: Option<Doc>): (o: Outcome)
    ensures file.None? ==> o == Outcome(0, st)
    ensures file.Some? ==> CacheGrows(st.kb, o.state.kb, Fingerprint(file.value, hash))
    ensures ProbeLe(st.probe, o.state.probe)
    ensures file.Some? && Fingerprint(file.value, hash).None? ==> o.state.kb == st.kb
    ensures file.Some? && Fingerprint(file.value, hash).Some? && Fingerprint(file.value, hash).value in st.kb ==>
      var fp := Fingerprint(file.value, hash).value;
      && o.state.kb == st.kb
      && o.count == ApplyRules(cfg, st.probe, file.value, st.kb[fp], env.allowPageWide).count
    ensures file.Some? && !(Fingerprint(file.value, hash).Some? && Fingerprint(file.value, hash).value in st.kb) ==>
      var rules := Learn(l, file.value, ner, env.rulesOnly);
      && (rules == [] ==> o == Outcome(0, st))
      && (rules != [] ==> o.count == ApplyRules(cfg, st.probe, file.value, rules, env.allowPageWide).count)
  {
    match file
    case None => Outcome(0, st)
    case Some(doc) =>
      var fp := Fingerprint(doc, hash);
      if fp.Some? && fp.value in st.kb then
        var acc := ApplyRules(cfg, st.probe, doc, st.kb[fp.value], env.allowPageWide);
        Outcome(acc.count, State(st.kb, acc.probe))
      else ProcessMiss(cfg, env, st, doc, fp, Learn(l, doc, ner, env.rulesOnly))
  }

  /** The miss branch, given the learned rules: nothing without rules, else
      apply them and store them sanitised under the fingerprint, if any. */
  function ProcessMiss(cfg: Config, env: Env, st: State, doc: Doc, fp: Option<string>, rules: seq<Rule>): (o: Outcome)
    requires fp.None? || fp.value !in st.kb
    ensures CacheGrows(st.kb, o.state.kb, fp)
    ensures ProbeLe(st.probe, o.state.probe)
    ensures fp.None? ==> o.state.kb == st.kb
    ensures rules == [] ==> o == Outcome(0, st)
    ensures rules != [] ==> o.count == ApplyRules(cfg, st.probe, doc, rules, env.allowPageWide).count
  {
    if rules == [] then Outcome(0, st)
    else
      var acc := ApplyRules(cfg, st.probe, doc, rules, env.allowPageWide);
      var kb := if fp.Some? then st.kb[fp.value := SanitizeRules(rules)] else st.kb;
      Outcome(acc.count, State(kb, acc.probe))
  }

  /** On a cache hit the learner and the NER pipeline play no part. */
  lemma HitIgnoresLearner(cfg: Config, l1: Learner, l2: Learner, env: Env, n1: Option<PersonFinder>,
                          n2: Option<PersonFinder>, hash: string -> string, st: State, doc: Doc)
    requires Fingerprint(doc, hash).Some? && Fingerprint(doc, hash).value in st.kb
    ensures ProcessPdf(cfg, l1, env, n1, hash, st, Some(doc)) == ProcessPdf(cfg, l2, env, n2, hash, st, Some(doc))
  {
  }

  /** On a miss with a fingerprint and some learned rules, the cache entry
      written is exactly the learned rule list: the learner already sanitised
      every anchor, so the processor's sanitising pass changes nothing. */
  lemma MissStoresLearnedRules(cfg: Config, l: Learner, env: Env, ner: Option<PersonFinder>,
                               hash: string -> string, st: State, doc: Doc)
    requires Fingerprint(doc, hash).Some? && Fingerprint(doc, hash).value !in st.kb
    requires Learn(l, doc, ner, env.rulesOnly) != []
    ensures var o := ProcessPdf(cfg, l, env, ner, hash, st, Some(doc));
      o.state.kb == st.kb[Fingerprint(doc, hash).value := Learn(l, doc, ner, env.rulesOnly)]
  {
    var rules := Learn(l, doc, ner, env.rulesOnly);
    assert LearnedRules(doc, rules);
    assert forall k | 0 <= k < |rules| :: GoodRule(rules[k]);
    SanitizeRulesFixed(rules);
    var fp := Fingerprint(doc, hash).value;
    var acc := ApplyRules(cfg, st.probe, doc, rules, env.allowPageWide);
    assert ProcessPdf(cfg, l, env, ner, hash, st, Some(doc))
        == Outcome(acc.count, State(st.kb[fp := SanitizeRules(rules)], acc.probe));
  }

  /** Processing the same document again, after a run that cached its rules,
      is a cache hit: the cache does not change, and the same rules are
      applied as in the first run. */
  lemma ReprocessIsHit(cfg: Config, l: Learner, env: Env, ner: Option<PersonFinder>, hash: string -> string,
                       st: State, doc: Doc)
    requires Fingerprint(doc, hash).Some? && Fingerprint(doc, hash).value !in st.kb
    requires Learn(l, doc, ner, env.rulesOnly) != []
    ensures var o1 := ProcessPdf(cfg, l, env, ner, hash, st, Some(doc));
      var o2 := ProcessPdf(cfg, l, env, ner, hash, o1.state, Some(doc));
      && o2.state.kb == o1.state.kb
      && o2.count == ApplyRules(cfg, o1.state.probe, doc, Learn(l, doc, ner, env.rulesOnly), env.allowPageWide).count
  {
    MissStoresLearnedRules(cfg, l, env, ner, hash, st, doc);
  }

  /** The `__main__` loop: every file in turn through the same processor, so
      each sees the cache and probe the previous ones left. */
  function ProcessBatch(cfg: Config, l: Learner, env: Env, ner: Option<PersonFinder>, hash: string -> string,
                        st: State, files: seq<Option<Doc>>): (o: (seq<nat>, State))
    ensures |o.0| == |files|
    ensures forall key | key in st.kb :: key in o.1.kb && o.1.kb[key] == st.kb[key]
    ensures ProbeLe(st.probe, o.1.probe)
    decreases |files|
  {
    if files == [] then ([], st)
    else
      var first := ProcessPdf(cfg, l, env, ner, hash, st, files[0]);
      var rest := ProcessBatch(cfg, l, env, ner, hash, first.state, files[1..]);
      ([first.count] + rest.0, rest.1)
  }
  /** In `Số CMND: 012345678` the number is a delimited digit run. */
  lemma CmndNumberDelimited()
    ensures DelimitedRun("Số CMND: 012345678", 9, 18)
    ensures "Số CMND: 012345678"[9..18] == "012345678"
  {
    var s := "Số CMND: 012345678";
    assert s[8] == ' ' && !IsWordChar(' ');
    assert forall k | 9 <= k < 18 :: IsDigit(s[k]);
  }

  /** `ID_REGEX` finds the number in `Số CMND: 012345678`. */
  lemma CmndTextHasId()
    ensures "012345678" in FindIter("Số CMND: 012345678", IdRun)
  {
    CmndNumberDelimited();
    IdHitIffLength("Số CMND: 012345678", 9, 18);
  }

  /** The rule learned from that page applies through the sanitised path
      and accepts the number at `area`. */
  lemma CmndRuleAccepts(doc: Doc, k: nat, lr: Rect, area: Rect)
    requires k < |doc.pages| && doc.pages[k].text == "Số CMND: 012345678"
    requires doc.pages[k].search("Số CMND: <ID>") == []
    requires lr in doc.pages[k].search("Số CMND:")
    requires area in doc.pages[k].search("012345678")
    requires IsLabelTokenOk(doc.pages[k], lr, area, Id, "012345678")
    ensures SanitizedAccepts(doc, Rule(k, "Số CMND: <ID>", Id), lr, "012345678", area)
  {
    CmndAnchorLabel();
    CmndTextHasId();
    assert LabelRects(doc.pages[k], "Số CMND:") == doc.pages[k].search("Số CMND:");
  }

  lemma CmndTextNotBlank()
    ensures !IsBlank("Số CMND: 012345678")
  {
    HasTextIffNotBlank("Số CMND: 012345678");
    assert !IsSpace("Số CMND: 012345678"[0]);
  }

  /** The page's text is not blank, so the label rule is learned. */
  lemma CmndRuleLearned(l: Learner, doc: Doc, k: nat, ner: Option<PersonFinder>, rulesOnly: bool)
    requires k < |doc.pages| && doc.pages[k].text == "Số CMND: 012345678"
    requires LabelMatch("Số CMND: 012345678", "012345678") in l.labels(CmndLabel, doc.pages[k].text)
    requires doc.pages[k].search("012345678") != []
    ensures Rule(k, "Số CMND: <ID>", Id) in Learn(l, doc, ner, rulesOnly)
  {
    CmndTextNotBlank();
    LearnCmndExample(l, doc, k, ner, rulesOnly);
  }

  /** End to end, on a miss: a page reading `Số CMND: 012345678`, where the
      label expression matches and the learned anchor `Số CMND: <ID>` is not
      found verbatim but its label `Số CMND:` is, with the number right of it
      on the same line, gets the number masked by the rules just learned,
      its box previewed as `01...78`. */
  lemma LearnThenMaskCmnd(cfg: Config, l: Learner, doc: Doc, k: nat, ner: Option<PersonFinder>, rulesOnly: bool,
                          probe: ProbeState, allowPageWide: bool, lr: Rect, area: Rect)
    requires k < |doc.pages| && doc.pages[k].text == "Số CMND: 012345678"
    requires LabelMatch("Số CMND: 012345678", "012345678") in l.labels(CmndLabel, doc.pages[k].text)
    requires doc.pages[k].search("Số CMND: <ID>") == []
    requires lr in doc.pages[k].search("Số CMND:")
    requires area in doc.pages[k].search("012345678")
    requires IsLabelTokenOk(doc.pages[k], lr, area, Id, "012345678")
    ensures var out := ApplyRules(cfg, probe, doc, Learn(l, doc, ner, rulesOnly), allowPageWide);
      exists e | e in out.overlays :: e.page == k && e.kind == Id && e.token == "012345678" && e.text == "01...78"
  {
    var rule := Rule(k, "Số CMND: <ID>", Id);
    var rules := Learn(l, doc, ner, rulesOnly);
    CmndRuleLearned(l, doc, k, ner, rulesOnly);
    CmndRuleAccepts(doc, k, lr, area);
    ApplyRulesCovers(cfg, probe, doc, rules, allowPageWide, rule, lr, "012345678", area);
    var out := ApplyRules(cfg, probe, doc, rules, allowPageWide);
    var i :| 0 <= i < |out.overlays| && out.overlays[i].page == k && out.overlays[i].kind == Id
             && out.overlays[i].token == "012345678" && out.overlays[i].text == VisibleOverlay("012345678", Id);
    OverlayIdExample("012345678");
    assert out.overlays[i] in out.overlays;
  }
}
