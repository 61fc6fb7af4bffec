/** `knowledge_base.py`: the rule cache keyed by document fingerprint, the
    fingerprint itself, and the anchor sanitiser that keeps raw numbers out of
    cached anchors (the monolithic module carries an identical copy of the
    sanitiser and of the fingerprint). */
module KnowledgeBase {
  import opened Text
  import opened Basics
  import opened Constants
  import opened DigitRuns
  import opened Geometry
  import opened Document

  /** A learned rule: on page `page`, find `anchor`, then look for a number of
      the given kind. */
  datatype Rule = Rule(page: nat, anchor: string, pattern: Kind)

  /** The rule cache: fingerprint to ordered rule list. */
  type Kb = map<string, seq<Rule>>

  /** What reading the cache file gave. */
  datatype KbSource = KbMissing | KbUnreadable | KbParsed(data: Kb)

  /** `KnowledgeBase.load`: never fails; a missing or unreadable file is an
      empty cache. */
  function LoadKb(src: KbSource): (kb: Kb)
    ensures src.KbParsed? ==> kb == src.data
    ensures !src.KbParsed? ==> kb == map[]
  {
    match src
    case KbParsed(data) => data
    case _ => map[]
  }

  /** The cache's contents only grow: every stored entry stays as it was, and
      a new key can only be `fp`. */
  predicate CacheGrows(before: Kb, after: Kb, fp: Option<string>) {
    && (forall key | key in before :: key in after && after[key] == before[key])
    && (forall key | key in after && key !in before :: fp == Some(key))
  }

  /* ------------------------------------------------------------ fingerprint */

  /** Height of the top band of the first page that is hashed. */
  const FingerprintBand: real := 150.0

  /** The text of the first page inside `Rect(0, 0, width, 150)`, or `""` for a
      document without pages. */
  function FingerprintExcerpt(doc: Doc): string {
    if |doc.pages| > 0 then
      doc.pages[0].clipText(Rect(0.0, 0.0, doc.pages[0].width, FingerprintBand))
    else []
  }

  /** `create_fingerprint(doc)`, with the SHA-256 hex digest as the parameter
      `hash`. */
  function Fingerprint(doc: Doc, hash: string -> string): (fp: Option<string>)
    ensures fp.None? <==> doc.pages == [] || FingerprintExcerpt(doc) == []
    ensures fp.Some? ==> fp.value == hash(FingerprintExcerpt(doc))
  {
    var excerpt := FingerprintExcerpt(doc);
    if excerpt == [] then None else Some(hash(excerpt))
  }

  /** Only the first page's top band matters: two documents whose first pages
      show the same band text get the same fingerprint, whatever else they
      contain. */
  lemma FingerprintOfFirstPageBand(d1: Doc, d2: Doc, hash: string -> string)
    requires d1.pages != [] && d2.pages != []
    requires d1.pages[0].clipText(Rect(0.0, 0.0, d1.pages[0].width, FingerprintBand))
          == d2.pages[0].clipText(Rect(0.0, 0.0, d2.pages[0].width, FingerprintBand))
    ensures Fingerprint(d1, hash) == Fingerprint(d2, hash)
  {
    assert FingerprintExcerpt(d1) == FingerprintExcerpt(d2);
  }

  /* -------------------------------------------------------------- sanitiser */

  const IdSubst: Subst := Subst(IdPlaceholderRun, "<ID>")
  const PhoneSubst: Subst := Subst(PhonePlaceholderRun, "<PHONE>")
  const NumSubst: Subst := Subst(NumPlaceholderRun, "<NUM>")

  /** `sanitize_anchor_text(anchor)`: an empty anchor as it is, otherwise the
      three `re.sub` passes in order. */
  function SanitizeAnchor(a: string): string {
    if a == [] then a
    else
      var afterId := ReSub(a, IdPlaceholderRun, "<ID>");
      var afterPhone := ReSub(afterId, PhonePlaceholderRun, "<PHONE>");
      ReSub(afterPhone, NumPlaceholderRun, "<NUM>")
  }

  /** Every run the phone pass accepts, the ID pass accepted first. */
  lemma PhoneRunsAreIdRuns()
    ensures SamePicks([IdSubst, PhoneSubst], [IdSubst])
    ensures SamePicks([IdSubst, PhoneSubst, NumSubst], [IdSubst, NumSubst])
  {
  }

  /** The `<PHONE>` pass never fires: on the output of the `<ID>` pass it
      changes nothing. */
  lemma PhonePassIsDead(a: string)
    ensures ReSub(ReSub(a, IdPlaceholderRun, "<ID>"), PhonePlaceholderRun, "<PHONE>")
         == ReSub(a, IdPlaceholderRun, "<ID>")
  {
    SubAllCompose(a, [IdSubst], [PhoneSubst], false);
    assert [IdSubst] + [PhoneSubst] == [IdSubst, PhoneSubst];
    PhoneRunsAreIdRuns();
    SubAllCongruent(a, [IdSubst, PhoneSubst], [IdSubst], false);
  }

  /** The sanitiser is one left-to-right pass over the delimited digit runs:
      a run of 9 to 12 digits becomes `<ID>`, any other run of 6 or more
      becomes `<NUM>`, and everything else is copied. */
  lemma SanitizeIsOnePass(a: string)
    ensures SanitizeAnchor(a) == SubAll(a, [IdSubst, NumSubst], false)
  {
    if a != [] {
      PhonePassIsDead(a);
      var afterId := ReSub(a, IdPlaceholderRun, "<ID>");
      SubAllCompose(a, [IdSubst], [NumSubst], false);
      assert [IdSubst] + [NumSubst] == [IdSubst, NumSubst];
      assert SanitizeAnchor(a) == ReSub(afterId, NumPlaceholderRun, "<NUM>");
    }
  }

  /** The sanitiser's replacements hold no digits. */
  lemma SanitizeRepsDigitFree()
    ensures RepsDigitFree([IdSubst, NumSubst])
  {
    assert DigitFree(IdSubst.rep) && DigitFree(NumSubst.rep);
  }

  /** Sanitising a sanitised anchor changes nothing (the processor sanitises
      anchors the learner already sanitised). */
  lemma SanitizeIdempotent(a: string)
    ensures SanitizeAnchor(SanitizeAnchor(a)) == SanitizeAnchor(a)
  {
    var once := SanitizeAnchor(a);
    SanitizeIsOnePass(a);
    SanitizeIsOnePass(once);
    SanitizeRepsDigitFree();
    SubAllIdempotent(a, [IdSubst, NumSubst], false);
    assert SanitizeAnchor(once) == SubAll(SubAll(a, [IdSubst, NumSubst], false), [IdSubst, NumSubst], false);
  }

  /** A second `<NUM>` pair after the first one never gets picked. */
  lemma RepeatedNumNeverPicked()
    ensures SamePicks([IdSubst, NumSubst, NumSubst], [IdSubst, NumSubst])
  {
    forall run: string | run != [] && AllDigits(run)
      ensures Pick(run, [IdSubst, NumSubst, NumSubst]) == Pick(run, [IdSubst, NumSubst])
    {
    }
  }

  /** Running the `<NUM>` pass again over a sanitised anchor changes nothing. */
  lemma SanitizeAbsorbsNumPass(a: string)
    ensures SubAll(SanitizeAnchor(a), [NumSubst], false) == SanitizeAnchor(a)
  {
    SanitizeIsOnePass(a);
    SanitizeRepsDigitFree();
    SubAllCompose(a, [IdSubst, NumSubst], [NumSubst], false);
    assert [IdSubst, NumSubst] + [NumSubst] == [IdSubst, NumSubst, NumSubst];
    RepeatedNumNeverPicked();
    SubAllCongruent(a, [IdSubst, NumSubst, NumSubst], [IdSubst, NumSubst], false);
  }

  /** Sanitising never blanks an anchor: every digit is kept or replaced by a
      placeholder starting with `<`. */
  lemma SanitizeKeepsNonBlank(a: string)
    requires !IsBlank(a)
    ensures !IsBlank(SanitizeAnchor(a))
  {
    BlankIffAllSpace(a);
    BlankIffAllSpace(SanitizeAnchor(a));
    SanitizeIsOnePass(a);
    assert RepsStartNonSpace([IdSubst, NumSubst]);
    SubAllKeepsNonSpace(a, [IdSubst, NumSubst], false);
  }

  /** An anchor is blank after sanitising exactly when it was blank before. */
  lemma SanitizeBlankIff(a: string)
    ensures IsBlank(SanitizeAnchor(a)) <==> IsBlank(a)
  {
    if IsBlank(a) {
      BlankIffAllSpace(a);
      SanitizeDigitFree(a);
    } else {
      SanitizeKeepsNonBlank(a);
    }
  }

  /** After sanitising, the `\b\d{6,}\b` expression finds nothing. */
  lemma SanitizeLeavesNoLongRun(a: string)
    ensures FindIter(SanitizeAnchor(a), NumPlaceholderRun) == []
  {
    SanitizeAbsorbsNumPass(a);
    FindsChangeText(SanitizeAnchor(a), NumPlaceholderRun, "<NUM>", false);
  }

  /** Stated by position: no digit run of six or more that has a non-word
      character (or an end of the text) on each side survives sanitising. */
  lemma SanitizeLeavesNoDelimitedLongRun(a: string, i: nat, j: nat)
    requires DelimitedRun(SanitizeAnchor(a), i, j)
    ensures j - i < 6
  {
    SanitizeLeavesNoLongRun(a);
    if j - i >= 6 {
      FindsComplete(SanitizeAnchor(a), NumPlaceholderRun, false, i, j);
      assert false;
    }
  }

  /** A text without digits is its own sanitised form. */
  lemma {:induction false} SanitizeDigitFree(a: string)
    requires DigitFree(a)
    ensures SanitizeAnchor(a) == a
  {
    SanitizeIsOnePass(a);
    DigitFreePrefix(a, [], [IdSubst, NumSubst], false);
    assert a + [] == a;
  }

  /** A caption without digits that ends in a non-word character, followed by
      a run of 9 to 12 digits, keeps its caption and the run becomes `<ID>`. */
  lemma SanitizeLabelledId(caption: string, run: string)
    requires caption != [] && DigitFree(caption) && !IsWordChar(caption[|caption| - 1])
    requires AllDigits(run) && 9 <= |run| <= 12
    ensures SanitizeAnchor(caption + run) == caption + "<ID>"
  {
    SanitizeIsOnePass(caption + run);
    SubAllAfterText(caption, run, [IdSubst, NumSubst], false);
    SubAllWholeRun(run, [IdSubst, NumSubst], false);
  }

  /** Digits glued to a word character are not delimited and survive: a
      caption without digits ending in a word character, followed by any digit
      run, is its own sanitised form. */
  lemma SanitizeGluedRunKept(caption: string, run: string)
    requires caption != [] && DigitFree(caption) && IsWordChar(caption[|caption| - 1])
    requires run != [] && AllDigits(run)
    ensures SanitizeAnchor(caption + run) == caption + run
  {
    SanitizeIsOnePass(caption + run);
    SubAllAfterText(caption, run, [IdSubst, NumSubst], false);
    SubAllWholeRun(run, [IdSubst, NumSubst], true);
  }

  /** `'Số CMND: 012345678'` becomes `'Số CMND: <ID>'`. */
  lemma SanitizeCmndExample()
    ensures SanitizeAnchor("Số CMND: 012345678") == "Số CMND: <ID>"
  {
    var caption, run := "Số CMND: ", "012345678";
    assert caption + run == "Số CMND: 012345678";
    assert caption + "<ID>" == "Số CMND: <ID>";
    SanitizeLabelledId(caption, run);
  }

  /** `'Số điện thoại: 0912345678'` becomes `'Số điện thoại: <ID>'`: the ten
      digits are a 9-to-12 run, so the `<ID>` pass takes them before the
      `<PHONE>` pass could. */
  lemma SanitizePhoneLabelExample()
    ensures SanitizeAnchor("Số điện thoại: 0912345678") == "Số điện thoại: <ID>"
  {
    var caption, run := "Số điện thoại: ", "0912345678";
    assert caption + run == "Số điện thoại: 0912345678";
    assert caption + "<ID>" == "Số điện thoại: <ID>";
    SanitizeLabelledId(caption, run);
  }

  /** `'CMND012345678'` is left as it is. */
  lemma SanitizeGluedExample()
    ensures SanitizeAnchor("CMND012345678") == "CMND012345678"
  {
    var caption, run := "CMND", "012345678";
    assert caption + run == "CMND012345678";
    SanitizeGluedRunKept(caption, run);
  }

  /** `'500000₫'` becomes `'<NUM>₫'`: the dong sign is not a word character,
      so the six digits before it are a delimited run. */
  lemma SanitizeAmountExample()
    ensures SanitizeAnchor("500000\U{20AB}") == "<NUM>\U{20AB}"
  {
    var run, sign := "500000", "\U{20AB}";
    assert run + sign == "500000\U{20AB}";
    var ps := [IdSubst, NumSubst];
    SanitizeIsOnePass(run + sign);
    DongSignNotWordChar();
    SubAllRunThen(run, sign, ps, false);
    assert Pick(run, ps) == Some("<NUM>");
    DigitFreePrefix(sign, [], ps, true);
    assert sign + [] == sign;
    assert "<NUM>" + sign == "<NUM>\U{20AB}";
  }

  /** `r2["anchor"] = sanitize_anchor_text(r2.get("anchor", ""))` over a rule
      list: pages, kinds, order and length are kept. */
  function SanitizeRules(rules: seq<Rule>): (out: seq<Rule>)
    ensures |out| == |rules|
    ensures forall k | 0 <= k < |rules| ::
      out[k].page == rules[k].page && out[k].pattern == rules[k].pattern
      && out[k].anchor == SanitizeAnchor(rules[k].anchor)
  {
    if rules == [] then []
    else [rules[0].(anchor := SanitizeAnchor(rules[0].anchor))] + SanitizeRules(rules[1..])
  }

  /** Rules whose anchors are already sanitised are stored as they are. */
  lemma SanitizeRulesFixed(rules: seq<Rule>)
    requires forall k | 0 <= k < |rules| :: SanitizeAnchor(rules[k].anchor) == rules[k].anchor
    ensures SanitizeRules(rules) == rules
  {
  }
}
