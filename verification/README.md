# pdf_contract_masking in Dafny

This project models the decision logic of `pdf_contract_masking`. The tool
finds the customer's ID-card and phone numbers in Vietnamese contract PDFs and
blacks out their middle digits. It remembers what it learned for each
document layout.

The pieces modelled are:

- `utils.mask_text`.
- The number shapes and vocabularies of `constants.py`.
- The redaction configuration (`RedactionConfig`).
- The rule cache (`KnowledgeBase`). This covers loading, the first-page
  fingerprint and the anchor sanitiser.
- The rule learner (`RuleLearner`). It covers label rules, customer
  rectangles, sensitive candidates, anchor choice, and the money and blank
  filters.
- The redactor's decisions (`Redactor`). These are:
  - keep counts;
  - the preview text;
  - the middle rectangle with its once-only capability probe;
  - the label check;
  - the chain of three drawing strategies;
  - the sanitised-anchor, anchor-rectangle and page-wide paths;
  - the rule dispatch.
- The processor's cache state machine (`PDFProcessor.process_pdf_final` and
  its batch loop).
- The older monolithic `contract_masking.py`, with each of its differences
  made explicit.

PyMuPDF is modelled as a `Page` value, in `document.dfy`:
- the page text;
- `get_text(clip=…)`;
- `search_for` with and without a clip;
- the words;
- the optional character boxes;
- which drawing strategies succeed on a rectangle.

The NER pipeline is a function from page text to person names. The label
regular expressions of the learner are a function from page text to matches.
SHA-256 is a parameter `hash`. The environment switches `RULES_ONLY`,
`ALLOW_PAGE_WIDE_FALLBACK` and `REQUIRE_NEAR_PERSON` are parameters.

Python's `re` on the core's digit patterns is modelled in `digit_runs.dfy`.
The patterns are `\b\d{9}\b|\b\d{12}\b`, `\b(?:84|0)\d{9}\b`,
`\b\d{9,12}\b`, `\b(?:84|0)\d{8,10}\b` and `\b\d{6,}\b`. The model is a
scanner over maximal digit runs bounded by non-word characters. Its
completeness (`FindsComplete`) and its substitution algebra
(`SubAllCompose`, `SubAllCongruent`, `SubAllIdempotent`) are proved.

Results the proofs establish:

- The sanitiser's `<PHONE>` pass can never fire. Every run it would match,
  the `<ID>` pass has already replaced. A phone anchor therefore becomes
  `… <ID>`, not the `<PHONE>` a docstring in `contract_masking.py` shows.
- Sanitising is idempotent. It leaves no delimited run of six or more
  digits.
- The processor stores exactly the learned rules. A second run over the same
  document is a cache hit.
- The learner's rules are free of duplicates. Each names a page with text
  and carries a non-blank, already sanitised anchor.
- Every overlay entry of `apply_rules` has the page and pattern of some rule.
  The count is the number of painted boxes.
- The probe only moves from unknown to a verdict, and from supported to
  unsupported.

Three behaviours of the code that its own comments or names suggest
otherwise; the model follows the code:

- The page-wide pass (`_page_wide_redact`, `redactor.py:169-178`) redacts
  every match of the pattern at every occurrence. Nothing is scored or
  ranked.
- The `sanitize_anchor_text` docstring (`contract_masking.py:75-91`) shows a
  phone anchor becoming `<PHONE>`. The `<ID>` pass runs first and takes every
  9-12 digit run, so such anchors become `<ID>`.
- The monolithic module calls `load_redaction_config` before the function is
  defined, so that call fails and the module always uses the default
  customer keyword list.

## Model

| member | source | states |
|---|---|---|
| Utils.MaskText | src/pdf_contract_masking/utils.py:7-16 | `None` gives `""`; a negative count with text is the `ValueError`; otherwise the length is kept, the first `n - keep` characters are `*` and the last `keep` are the input's, a text no longer than `keep` (keep > 0) is returned as is and keep 0 stars everything |
| Utils.MaskTextIdempotent | src/pdf_contract_masking/utils.py:11-16 | masking a masked text again with the same count changes nothing |
| Utils.MaskTextDocExample | src/pdf_contract_masking/utils.py:1-6 | the docstring's example `"1234567890"` → `"******7890"` holds |
| Utils.MaskTextCliExample | src/pdf_contract_masking/cli.py:9-11 | with the command-line default of 4, `"123456"` masks to `"**3456"` |
| Config.LoadConfig | src/pdf_contract_masking/config.py:15-24 | a parsed file is used verbatim; a missing or unreadable file yields keep counts 2/2 for `id` and 4/2 for `phone` |
| Config.Lookup | src/pdf_contract_masking/config.py:26-28 | `cfg.get(kind, {}).get(key, dflt)`: the stored value when both levels exist, else the default |
| Config.GetKeep | src/pdf_contract_masking/config.py:26-28 | each side is the stored count, or 0 when the kind or the key is absent |
| Config.GetExclusion | src/pdf_contract_masking/config.py:30-35 | the stored `exclude` entry for the key, else the caller's default (also when there is no `exclude` section) |
| Config.LoadedConfigNotMerged | src/pdf_contract_masking/config.py:15-28 | a parsed file replaces the defaults: without an `id` section an ID keeps (0, 0), while the missing file gives (2, 2) |
| Constants.LabelMoneyWordsSame | src/pdf_contract_masking/rule_learner.py:49-51 | the learner's extra money keyword `số tiền (vnđ)` never changes the veto, because it contains `số tiền` |
| DigitRuns.Finds | src/pdf_contract_masking/constants.py:4-5 | every match the scanner reports is a non-empty digit run the pattern accepts |
| DigitRuns.Search | src/pdf_contract_masking/redactor.py:151-153 | `pattern.search` finds something exactly when `finditer` does, and what it finds is an accepted digit run |
| DigitRuns.Pick | src/pdf_contract_masking/knowledge_base.py:48-50 | a run gets a replacement exactly when some pattern of the list accepts it, and digit-free replacements give digit-free results |
| DigitRuns.FindsComplete | src/pdf_contract_masking/constants.py:4-5 | the scanner misses nothing: every delimited digit run the pattern accepts is among the matches |
| DigitRuns.IdHitIffLength | src/pdf_contract_masking/constants.py:4 | `ID_REGEX` matches a delimited digit run exactly when it has 9 or 12 digits |
| DigitRuns.FindsWholeRun | src/pdf_contract_masking/constants.py:4-5 | a text that is one digit run matches exactly when it is not glued to a preceding word character and the pattern accepts it |
| DigitRuns.SubAllCompose | src/pdf_contract_masking/knowledge_base.py:47-50 | successive `re.sub` passes with digit-free replacements equal one pass with the concatenated pattern list |
| DigitRuns.SubAllCongruent | src/pdf_contract_masking/knowledge_base.py:47-50 | two pattern lists that replace every run alike give the same substitution |
| DigitRuns.SubAllIdempotent | src/pdf_contract_masking/knowledge_base.py:47-50 | a substitution with digit-free replacements, applied again to its output, changes nothing |
| DigitRuns.FindsChangeText | src/pdf_contract_masking/knowledge_base.py:48-50 | if a pattern matches, substituting a non-digit replacement changes the text |
| DigitRuns.DigitFreePrefix | src/pdf_contract_masking/knowledge_base.py:47-50 | a digit-free prefix passes through substitution unchanged |
| DigitRuns.SubAllAfterText | src/pdf_contract_masking/knowledge_base.py:47-50 | after a digit-free prefix, a run is bounded exactly when the prefix ends in a non-word character |
| DigitRuns.SubAllRunThen | src/pdf_contract_masking/knowledge_base.py:47-50 | a digit run followed by non-digit text is replaced as a whole exactly when it is bounded and some expression accepts it |
| DigitRuns.PickAppend | src/pdf_contract_masking/knowledge_base.py:47-50 | the first accepting pattern of a concatenated list is taken from the first list if it has one |
| KnowledgeBase.LoadKb | src/pdf_contract_masking/knowledge_base.py:17-25 | loading never fails: a parsed file is the cache, a missing or unreadable one is empty |
| KnowledgeBase.Fingerprint | src/pdf_contract_masking/knowledge_base.py:32-41 | no fingerprint exactly when there are no pages or the first page's top 150-unit band has no text; otherwise the hash of that band |
| KnowledgeBase.FingerprintOfFirstPageBand | src/pdf_contract_masking/knowledge_base.py:32-41 | documents whose first pages show the same top band get the same fingerprint, whatever else they hold |
| KnowledgeBase.PhonePassIsDead | src/pdf_contract_masking/knowledge_base.py:48-49 | on the output of the `<ID>` pass, the `<PHONE>` pass changes nothing |
| KnowledgeBase.SanitizeIsOnePass | src/pdf_contract_masking/knowledge_base.py:44-51 | the three passes are one left-to-right pass: delimited 9–12 digit runs become `<ID>`, other delimited runs of 6+ become `<NUM>` |
| KnowledgeBase.SanitizeAbsorbsNumPass | src/pdf_contract_masking/knowledge_base.py:50 | running the `<NUM>` pass again over a sanitised anchor changes nothing |
| KnowledgeBase.SanitizeIdempotent | src/pdf_contract_masking/knowledge_base.py:44-51 | sanitising a sanitised anchor changes nothing |
| KnowledgeBase.SanitizeBlankIff | src/pdf_contract_masking/knowledge_base.py:44-51 | an anchor is blank after sanitising exactly when it was blank before, so the blank check before storing sees the same verdict either way |
| KnowledgeBase.SanitizeLeavesNoLongRun | src/pdf_contract_masking/knowledge_base.py:50 | `\b\d{6,}\b` finds nothing in a sanitised anchor |
| KnowledgeBase.SanitizeLeavesNoDelimitedLongRun | src/pdf_contract_masking/knowledge_base.py:44-51 | no delimited digit run of six or more survives sanitising |
| KnowledgeBase.SanitizeDigitFree | src/pdf_contract_masking/knowledge_base.py:44-51 | an anchor without digits is left as it is |
| KnowledgeBase.SanitizeLabelledId | src/pdf_contract_masking/knowledge_base.py:48 | a digit-free caption ending in a non-word character, followed by 9–12 digits, becomes the caption plus `<ID>` |
| KnowledgeBase.SanitizeGluedRunKept | src/pdf_contract_masking/knowledge_base.py:48-50 | digits glued to a word character are not bounded by `\b` and are kept |
| KnowledgeBase.SanitizeCmndExample | src/pdf_contract_masking/contract_masking.py:75-91 | `Số CMND: 012345678` sanitises to `Số CMND: <ID>` |
| KnowledgeBase.SanitizePhoneLabelExample | src/pdf_contract_masking/contract_masking.py:75-91 | `Số điện thoại: 0912345678` sanitises to `Số điện thoại: <ID>`, not the `<PHONE>` the docstring shows |
| KnowledgeBase.SanitizeGluedExample | src/pdf_contract_masking/knowledge_base.py:44-51 | `CMND012345678` is left as it is |
| KnowledgeBase.SanitizeAmountExample | src/pdf_contract_masking/knowledge_base.py:44-51 | `500000₫` becomes `<NUM>₫`: the dong sign is not a word character, so the run before it is delimited |
| KnowledgeBase.SanitizeRules | src/pdf_contract_masking/processor.py:45-50 | the stored copy keeps each rule's page, pattern and position, and sanitises its anchor |
| RuleLearner.LearnerKeywords | src/pdf_contract_masking/rule_learner.py:11-12 | the given keyword list, or the default list when none is given |
| RuleLearner.AddRule | src/pdf_contract_masking/rule_learner.py:55-56 | a rule already present leaves the list unchanged; otherwise it is appended; no duplicates are introduced |
| RuleLearner.StoreAnchor | src/pdf_contract_masking/rule_learner.py:52-56 | every earlier rule is kept; a blank sanitised anchor adds nothing; otherwise the rule with the sanitised anchor is in the result, appended when it was not there already |
| RuleLearner.LabelStep | src/pdf_contract_masking/rule_learner.py:40-56 | a label match with an empty value, a value not on the page, money words in its first 40 characters or a blank cut adds nothing; a match passing all four checks stores its sanitised 40-character rule, and nothing else is added |
| RuleLearner.LabelStepCmndExample | src/pdf_contract_masking/rule_learner.py:33-57 | a `Số CMND: 012345678` match whose number is on the page adds the ID rule anchored on `Số CMND: <ID>` |
| RuleLearner.CmndLabelIsNotMoney | src/pdf_contract_masking/rule_learner.py:49-51 | the money vocabulary does not occur in `Số CMND: 012345678` |
| RuleLearner.AddLabelRules | src/pdf_contract_masking/rule_learner.py:33-57 | label rules only append good rules of this page without duplicates; every passing match of each of the three label expressions has its rule, with that expression's pattern, in the result, and every rule added is such a rule |
| RuleLearner.NameRects | src/pdf_contract_masking/rule_learner.py:71-75 | a name occurrence is kept exactly when a customer keyword occurs in the widened text around it |
| RuleLearner.NamesRects | src/pdf_contract_masking/rule_learner.py:68-77 | the customer rectangles are exactly the occurrences of the person names that have a keyword nearby |
| RuleLearner.KeywordRects | src/pdf_contract_masking/rule_learner.py:79-84 | the fallback rectangles are exactly the occurrences of the keywords the lower-cased page text contains |
| RuleLearner.CustomerRects | src/pdf_contract_masking/rule_learner.py:66-84 | the name rectangles when there are any; otherwise exactly the keyword occurrences |
| RuleLearner.WordCandidates | src/pdf_contract_masking/rule_learner.py:24-31 | the word candidates are the stripped words that fully match the ID or the phone shape: each such word is one, and nothing else is |
| RuleLearner.SensitiveCandidates | src/pdf_contract_masking/rule_learner.py:85-90 | the word candidates when there are any; otherwise the `ID_REGEX` matches of the page text followed by its `PHONE_REGEX` matches; every candidate has the ID or phone shape |
| RuleLearner.CandidateKindByShape | src/pdf_contract_masking/rule_learner.py:106 | a candidate gets the ID pattern exactly when it has the ID shape, and the phone pattern exactly when it has the phone shape |
| RuleLearner.NearbyWords | src/pdf_contract_masking/rule_learner.py:125-129 | every nearby word is longer than one character, and every word meeting the window whose cleaned text is longer than one character is among them |
| RuleLearner.NearbyWordsFromWindow | src/pdf_contract_masking/rule_learner.py:125-129 | each nearby word is the cleaned text of a word whose box meets the left window |
| RuleLearner.ChooseAnchor | src/pdf_contract_masking/rule_learner.py:121-141 | an anchor is the last one to three nearby words joined by spaces and occurs on the page; no nearby words means no anchor; when there are nearby words and the page contains their join, that join is the anchor |
| RuleLearner.FallbackAnchor | src/pdf_contract_masking/rule_learner.py:101-105 | the fallback is a keyword the lower-cased page contains; there is none exactly when no keyword occurs |
| RuleLearner.AnchorRule | src/pdf_contract_masking/rule_learner.py:107-118 | a missing, blank or money-naming anchor adds nothing; any other anchor adds its sanitised rule with the candidate's pattern unless already present, and nothing else |
| RuleLearner.ProximityStep | src/pdf_contract_masking/rule_learner.py:96-118 | a candidate 120 units or more from the customer rectangle adds nothing; otherwise the chosen anchor (or the keyword fallback when none is chosen), if usable, adds its rule with the candidate's pattern unless already present, and nothing else is added |
| RuleLearner.CustomerSlots | src/pdf_contract_masking/rule_learner.py:92 | no customer rectangles gives the single slot `None`; otherwise one slot per rectangle, in order |
| RuleLearner.CustomerLoopRules | src/pdf_contract_masking/rule_learner.py:92-118 | for every customer slot, candidate and occurrence of that candidate that passes the 120-unit distance check and has a usable anchor, the rule with the sanitised anchor and the kind given by the candidate's shape is in the result; every rule added is such a rule; earlier rules are kept and no duplicate appears |
| RuleLearner.LearnPage | src/pdf_contract_masking/rule_learner.py:61-118 | a blank page adds nothing; other pages only append good rules of this page without duplicates and keep every earlier rule, and every rule appended is a passing label match's or a passing proximity occurrence's of this page |
| RuleLearner.LearnPageHasPageRules | src/pdf_contract_masking/rule_learner.py:61-118 | after a page with text, every passing label match and every passing (customer slot, candidate, occurrence) triple of that page has its rule in the list |
| RuleLearner.FoldPagesPrefix | src/pdf_contract_masking/rule_learner.py:59-61 | in the loop over the pages, whose steps only append, the list after any page is a prefix of the final list |
| RuleLearner.FoldPagesInvariant | src/pdf_contract_masking/rule_learner.py:59-61 | a property of the empty list that every page step keeps holds of the final list |
| RuleLearner.PageStepHasPageRules | src/pdf_contract_masking/rule_learner.py:59-119 | the rules a page contributes are still in the list after all later pages |
| RuleLearner.Learn | src/pdf_contract_masking/rule_learner.py:59-119 | learned rules are duplicate-free, each on a page with text and with a non-blank sanitised anchor; conversely, for every page with text, the rule of every passing label match and of every passing proximity candidate is learned |
| RuleLearner.LearnSound | src/pdf_contract_masking/rule_learner.py:59-119 | every learned rule comes from its own page, which has text: it is the rule of a passing label match or of a passing (customer slot, candidate, occurrence) triple there |
| RuleLearner.LearnExact | src/pdf_contract_masking/rule_learner.py:59-119 | a rule is learned if and only if its own page gives it in that way |
| RuleLearner.LearnCmndExample | src/pdf_contract_masking/rule_learner.py:33-63 | a non-blank page where the `Số CMND` expression matches `Số CMND: 012345678`, with the number on the page, learns the ID rule anchored on `Số CMND: <ID>`, so the learned list is not empty |
| Redactor.ComputeKeep | src/pdf_contract_masking/redactor.py:204-210 | ID-classified tokens of 4+ digits take the `id` counts, else phone-classified ones of 6+ take the `phone` counts, and every other token keeps nothing (0, 0) |
| Redactor.ComputeKeepDefaults | src/pdf_contract_masking/redactor.py:204-210 | with the built-in configuration: 2/2 for an ID, 4/2 for a phone, nothing under four digits |
| Redactor.VisibleOverlay | src/pdf_contract_masking/redactor.py:279-294 | a token without digits is shown as is; otherwise at most its digits plus `...` |
| Redactor.OverlayShowsKeptDigits | src/pdf_contract_masking/redactor.py:279-294 | the preview is exactly the kept leading digits, `...`, and the kept trailing digits |
| Redactor.OverlayIdExample | src/pdf_contract_masking/redactor.py:284-286 | `012345678` as an ID previews as `01...78` |
| Redactor.OverlayPhoneExample | src/pdf_contract_masking/redactor.py:287-289 | `0912345678` as a phone previews as `0912...78` |
| Redactor.DigitBoxes | src/pdf_contract_masking/redactor.py:241-245 | every selected digit box has area and meets the token's area |
| Redactor.CharPathCoversMiddle | src/pdf_contract_masking/redactor.py:246-252 | with enough digit boxes, the rectangle is the bounding box of exactly the middle digits: it covers each, and its side edges belong to middle digits |
| Redactor.MiddleBoundingBox | src/pdf_contract_masking/redactor.py:247-252 | the union of the middle digit boxes covers each of them and takes its side edges from them |
| Redactor.ProportionalInside | src/pdf_contract_masking/redactor.py:267-277 | the proportional rectangle lies inside the token box at full height; when it is narrower, its edges sit `left` and `n - right` digit widths from the left |
| Redactor.MidRect | src/pdf_contract_masking/redactor.py:212-277 | no digits: the whole area and the probe unchanged; otherwise the probe reaches a verdict; while the probe allows it and the character path yields a box, that box is the result; in every other case with digits the rectangle is the proportional split |
| Redactor.MidRectStable | src/pdf_contract_masking/redactor.py:134-137 | recomputing the rectangle with the probe it left gives the same result |
| Redactor.IsLabelTokenOk | src/pdf_contract_masking/redactor.py:180-202 | accepted exactly when there are no money words in the label, the vertical centres are within 14, the area starts right of the label (2 units slack), and phone or ID tokens carry the matching label vocabulary |
| Redactor.RunChain | src/pdf_contract_masking/redactor.py:30-49 | strategies are tried in order until one succeeds; success iff some strategy works; every earlier one failed |
| Redactor.DrawFilledRect | src/pdf_contract_masking/redactor.py:30-49 | painting succeeds exactly when `draw_rect`, a shape fill or a redaction annotation works, tried in that order |
| Redactor.Record | src/pdf_contract_masking/redactor.py:52-58 | exactly one overlay entry is appended whatever happens; its box is the middle rectangle for the token's keep counts and the probe moves as that computation moves it; the count grows by one exactly when the box was painted |
| Redactor.Precompute | src/pdf_contract_masking/redactor.py:134-135 | the dropped rectangle computation only moves the probe forward |
| Redactor.PrecomputeHarmless | src/pdf_contract_masking/redactor.py:134-137 | recording after the dropped computation is the same as recording alone |
| Redactor.RecordAll | src/pdf_contract_masking/redactor.py:174-177 | one entry per area, all of this page and pattern, the count consistent |
| Redactor.RecordAllPrecomputeHarmless | src/pdf_contract_masking/redactor.py:169-178 | the page-wide loop's extra rectangle computations change nothing |
| Redactor.SanitizedAreaStep | src/pdf_contract_masking/redactor.py:131-137 | an area that fails the label check adds nothing; an accepted one appends exactly one entry, for the token, with its preview |
| Redactor.SanitizedAreas | src/pdf_contract_masking/redactor.py:131-137 | one entry per area the label occurrence accepts, each of this page and pattern and for the token |
| Redactor.SanitizedLabels | src/pdf_contract_masking/redactor.py:129-137 | the entries added are exactly one per (label occurrence, match, area) the label check accepts, each on this page, of this pattern and for a match of the pattern |
| Redactor.HandleSanitized | src/pdf_contract_masking/redactor.py:107-140 | an anchor that is only placeholders adds nothing; otherwise exactly one entry per (label occurrence, match, area) the label check accepts, each for a match of the pattern with its preview |
| Redactor.CmndAnchorLabel | src/pdf_contract_masking/redactor.py:111-113 | `Số CMND: <ID>` carries a placeholder, and its label is `Số CMND:` |
| Redactor.WindowStep | src/pdf_contract_masking/redactor.py:145-156 | no match in the right window, or no occurrence of it there, adds nothing; otherwise exactly the first occurrence in the window is recorded (the loop breaks) |
| Redactor.InsideStep | src/pdf_contract_masking/redactor.py:157-166 | no match inside the anchor adds nothing; otherwise every occurrence of that match inside the anchor is recorded |
| Redactor.ApplyAnchorRects | src/pdf_contract_masking/redactor.py:142-167 | one entry per occurrence of the window match inside the window (at most one per anchor occurrence) and per occurrence of the inside match inside the anchor; every entry is of this page and pattern, and carries one of those matches with its preview |
| Redactor.PageWide | src/pdf_contract_masking/redactor.py:169-178 | one entry per occurrence of every match of the pattern in the page text, each for its match with its preview |
| Redactor.ApplyRule | src/pdf_contract_masking/redactor.py:65-80 | a rule for a missing page does nothing; an unfound anchor with a placeholder takes the sanitised path; a found anchor takes the anchor-rectangle path; an empty or unfound plain anchor takes the page-wide pass when the switch is on and does nothing otherwise |
| Redactor.ApplyRuleAppends | src/pdf_contract_masking/redactor.py:65-80 | one rule only appends entries, each on the rule's page (which exists) with the rule's pattern |
| Redactor.ApplyRulesFrom | src/pdf_contract_masking/redactor.py:65-80 | earlier entries are kept; every new entry lies on an existing page with the page and pattern of some rule |
| Redactor.ApplyRules | src/pdf_contract_masking/redactor.py:60-82 | the count equals the number of painted entries; the probe only moves forward; every entry comes from some rule on an existing page |
| Redactor.ApplyNoRules | src/pdf_contract_masking/redactor.py:60-82 | no rules: nothing painted, nothing recorded, the probe unchanged |
| Redactor.SanitizedAreasCovers | src/pdf_contract_masking/redactor.py:131-137 | an area the label occurrence accepts gets an entry for its token, of this page and pattern |
| Redactor.SanitizedTokensCovers | src/pdf_contract_masking/redactor.py:129-137 | the same for an accepted area of any of the matches |
| Redactor.SanitizedLabelsCovers | src/pdf_contract_masking/redactor.py:128-137 | the same for any label occurrence |
| Redactor.ApplyRulesFromCovers | src/pdf_contract_masking/redactor.py:65-74 | a match that some rule's sanitised path accepts is masked, whatever the other rules do |
| Redactor.ApplyRulesCovers | src/pdf_contract_masking/redactor.py:60-82 | `apply_rules` masks every match that some rule's sanitised path accepts, with its preview |
| Redactor.WindowStepEntries | src/pdf_contract_masking/redactor.py:145-156 | the entry the window part adds carries the window match and its preview |
| Redactor.WindowCovers | src/pdf_contract_masking/redactor.py:145-156 | a window match that occurs in the window gets an entry for it, of this page and pattern, with its preview |
| Redactor.InsideCovers | src/pdf_contract_masking/redactor.py:157-166 | a match inside the anchor that occurs there gets an entry for it, of this page and pattern, with its preview |
| Redactor.OccurrenceCovers | src/pdf_contract_masking/redactor.py:144-166 | one anchor occurrence masks its window match when that occurs in the window, and its inside match when that occurs inside the anchor |
| Redactor.AnchorRectsCovers | src/pdf_contract_masking/redactor.py:142-167 | `_apply_anchor_rects` masks the recorded match of every anchor occurrence |
| Redactor.ApplyRulesFromAnchorCovers | src/pdf_contract_masking/redactor.py:65-78 | a match that an occurrence of some rule's found anchor records is masked, whatever the other rules do |
| Redactor.ApplyRulesAnchorCovers | src/pdf_contract_masking/redactor.py:60-82 | `apply_rules` masks every match that an occurrence of some rule's found anchor records, with its preview: the path every learned proximity rule takes |
| Processor.ProcessPdf | src/pdf_contract_masking/processor.py:27-86 | unopenable file: 0 and state unchanged. Cache entries are never lost or changed, and a new one only appears under this fingerprint. A hit applies the cached rules without touching the cache; a miss with no rules returns 0 |
| Processor.MissStoresLearnedRules | src/pdf_contract_masking/processor.py:40-50 | on a miss the cache entry written is exactly the learned list, because sanitising it again changes nothing |
| Processor.ReprocessIsHit | src/pdf_contract_masking/processor.py:38-50 | processing the same document again is a hit that keeps the cache and applies the learned rules |
| Processor.HitIgnoresLearner | src/pdf_contract_masking/processor.py:38-39 | on a hit, neither the learner nor the NER pipeline affects the result |
| Processor.ProcessBatch | src/pdf_contract_masking/processor.py:88-102 | one count per file; cached entries survive the batch; the probe only moves forward |
| Processor.CmndTextHasId | src/pdf_contract_masking/constants.py:4 | `ID_REGEX` finds `012345678` in `Số CMND: 012345678` |
| Processor.CmndRuleLearned | src/pdf_contract_masking/processor.py:40-41 | learning from a page reading `Số CMND: 012345678` where the label expression matches stores the ID rule anchored on `Số CMND: <ID>` |
| Processor.CmndRuleAccepts | src/pdf_contract_masking/redactor.py:65-74 | on such a page, that rule takes the sanitised path and accepts the number right of the `Số CMND:` label |
| Processor.LearnThenMaskCmnd | src/pdf_contract_masking/processor.py:40-43 | on a miss, learning from that page and applying the learned rules masks `012345678` on it with the preview `01...78` |
| KnowledgeBase.SanitizeRulesFixed | src/pdf_contract_masking/processor.py:45-50 | rules with already-sanitised anchors are stored unchanged |
| ContractMasking.LegacyKeep | src/pdf_contract_masking/contract_masking.py:466-476 | a missing key falls back to 2/2 (ID) or 4/2 (phone); a token neither branch takes keeps nothing (0, 0) |
| ContractMasking.LegacyKeepAgrees | src/pdf_contract_masking/contract_masking.py:466-476 | a configuration stating all four counts gives the same counts as the package redactor |
| ContractMasking.LegacyKeepDefaults | src/pdf_contract_masking/contract_masking.py:49-62 | without a file both agree; a file without `id` keeps 2/2 here but 0/0 in the package |
| ContractMasking.MaskTokenDisplay | src/pdf_contract_masking/contract_masking.py:319-338 | ID or phone tokens display at digit length; any other token longer than two characters shows its first and last character with `*` between, and a shorter one is all `*` |
| ContractMasking.MaskDisplayMatchesOverlay | src/pdf_contract_masking/contract_masking.py:319-356 | the display stars exactly the middle digits the preview hides, and shows the same kept digits |
| ContractMasking.LegacyOverlayTextIsPreview | src/pdf_contract_masking/contract_masking.py:687-709 | the written text is the stored preview except for an ID-classified 3-digit token, which is written bare |
| ContractMasking.LegacyMidRectAgrees | src/pdf_contract_masking/contract_masking.py:357-386 | the probe-less rectangle equals the package's unless the probe was switched off while this page has character boxes |
| ContractMasking.IsNearPersonCases | src/pdf_contract_masking/contract_masking.py:285-297 | true when strict mode is off; false without person boxes; otherwise true iff a person box widened by 200/30 meets the area |
| ContractMasking.AllowRedaction | src/pdf_contract_masking/contract_masking.py:307-317 | a non-blank anchor allows; otherwise a nearby customer keyword, or in strict mode a nearby person |
| ContractMasking.PageWideNeedsKeyword | src/pdf_contract_masking/contract_masking.py:299-317 | outside strict mode, a page-wide redaction needs a customer keyword nearby |
| ContractMasking.LRecord | src/pdf_contract_masking/contract_masking.py:478-492 | a disallowed area adds nothing; an unpaintable box raises; otherwise exactly one painted entry with the preview |
| ContractMasking.LRecordAll | src/pdf_contract_masking/contract_masking.py:538-606 | without an earlier failure and with every allowed box paintable, no failure and one painted entry per area the gate allows, each for the token |
| ContractMasking.LSanitizedArea | src/pdf_contract_masking/contract_masking.py:426-463 | an area no label accepts adds nothing; otherwise it is recorded exactly as `LRecord` records it |
| ContractMasking.LegacySanitized | src/pdf_contract_masking/contract_masking.py:397-495 | a label-less anchor adds nothing; otherwise the result is the recording of every match some label occurrence accepts, with a drawing failure swallowed and the entries made before it kept; without a failure, one entry per accepted, allowed area |
| ContractMasking.LegacyOccurrence | src/pdf_contract_masking/contract_masking.py:496-606 | a window match records every window occurrence and skips the inside search; otherwise a match inside the anchor records every occurrence inside; the flag is set exactly when either matched |
| ContractMasking.LegacyOccurrences | src/pdf_contract_masking/contract_masking.py:496-606 | the flag is set exactly when some anchor occurrence has a window or inside match; nothing is recorded without one; every entry carries the match of its occurrence; with no earlier or new failure, one entry per allowed box of every occurrence's match |
| ContractMasking.LegacyPageWide | src/pdf_contract_masking/contract_masking.py:616-683 | every match of the pattern at every occurrence, each gated by `allow_redaction` with an empty anchor; without a drawing failure, exactly one painted entry per allowed occurrence, for its match |
| ContractMasking.LegacyApplyRule | src/pdf_contract_masking/contract_masking.py:388-683 | a missing page or an earlier escaped failure does nothing; an empty or unfound plain anchor goes through the page-wide pass; an unfound placeholder anchor goes through the sanitised block and then the page-wide pass; a found anchor goes through its occurrences, and the page-wide pass follows only when none matched and `ALLOW_PAGE_WIDE_FALLBACK=1` |
| ContractMasking.FoundAnchorNoMatchIsQuiet | src/pdf_contract_masking/contract_masking.py:612-615 | a found anchor with no matching occurrence adds nothing while the page-wide switch is off |
| ContractMasking.LegacyApplyRules | src/pdf_contract_masking/contract_masking.py:254-711 | every entry is a painted box, so the count is the number of entries; each comes from some rule on an existing page |
| ContractMasking.LegacyStore | src/pdf_contract_masking/contract_masking.py:723-737 | on a cache miss with learned rules: saved exactly when no failure escaped and a box was painted; without a failure and with a fingerprint, the cache gains exactly the learned rules under that key (sanitising them again changes nothing); otherwise the cache is unchanged, and no existing key ever changes |
| ContractMasking.LegacyProcess | src/pdf_contract_masking/contract_masking.py:714-743 | a failure leaves nothing saved and the cache unchanged. Output is saved exactly when something was painted. The cache gains the learned rules only on a miss without failure |
| ContractMasking.LegacySavedIffRedacted | src/pdf_contract_masking/contract_masking.py:736-741 | saved exactly when the rules applied without an escaping failure and painted at least one box |

## Left out

- File I/O is not modelled: reading and writing JSON, `KnowledgeBase.save`, `doc.save`, the output-directory handling and the post-save check. Files are modelled as inputs (`ConfigSource`, `KbSource`, `Option<Doc>`).
- The `kb.save()` after the batch loop in `processor.py` (line 103) is file I/O and is not modelled. `ProcessBatch` returns the final cache, which is what that call writes.
- PyMuPDF is an oracle that never raises. So the modular code's `except` paths, including `process_pdf_final`'s "return 0 on any exception", are not modelled. The exception is the monolithic module's uncaught `add_redact_annot` failure, which is modelled (`raised`).
- `_draw_overlays` (`redactor.py:296-302`) and the monolithic overlay drawing (`contract_masking.py:687-709`) are not modelled. The exception is the choice of text for an ID token. Font sizes and text placement are rendering.
- Floating-point coordinates are modelled as `real`. Rounding is not modelled.
- SHA-256 is the parameter `hash`.
- The NER model and its loading (`ner.py`, `load_ner_model`) are not modelled. The pipeline is a function from text to person names.
- The learner's label regular expressions are an input (`LabelFinder`). The patterns themselves are not modelled.
- `IsWordChar` (`\w`), `IsSpace` and `Lower` cover ASCII, Latin-1 and Vietnamese letters, not all of Unicode. `IsWordChar` counts every character from U+00C0 up as a word character except a list of symbol, punctuation, combining-mark and emoji blocks (the dong sign `₫` among the excluded), so a symbol outside those blocks is wrongly a word character. `\d` and `isdigit` are ASCII digits only.
- Rule patterns are one of the two compiled expressions (`Kind`). Hand-edited cache files with other pattern strings, negative pages or missing fields are not modelled.
- `_gather_person_rects` (`redactor.py:84-105`) is not modelled. It is only used under `REQUIRE_NEAR_PERSON`, whose flag the package redactor computes but never consults when drawing.
- `_safe_search_for`'s exception handling is not modelled; search is total.
- In the monolithic module, `masked = mask_token_display(…)` is computed and never used. `MaskTokenDisplay` is modelled and related to the preview, but no path consumes it.
- The monolithic `load_knowledge_base` raises on a malformed file (`contract_masking.py:93-96`). Only its result on a readable file matters to the core, so the raise is not modelled.
- The CLI (`cli.py`), the logger, `contract_masking_refactored.py`, the scripts and `create_sample_contract.py` are not part of this model.
- Python `set()` iteration order for person names is modelled as first-occurrence order (`Dedup`). The real order is unspecified.
- The monolithic module's word clean-up strips whitespace before punctuation, unlike the package learner's. The `legacy` flag of `CleanWord` selects it.
- In `learn`, the word candidates' rectangles are stored under `rect` but read under `rects`, so occurrences always come from `search_for(text)`. The model follows that.
- `Redactor.VisibleOverlay`: the contract bounds the preview's length but states its content only through `OverlayShowsKeptDigits` and the examples. The short-token branch (first `...` last) has no separate lemma.
