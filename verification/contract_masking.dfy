/** The monolithic `contract_masking.py`: the same learning and redaction
    engine as the package modules, in an older form that differs in checkable
    ways. Its keep counts fall back to 2/2 and 4/2 per missing key. Its
    middle rectangle has no probe. A box counts as soon as it is painted, and
    a box that cannot be painted by any strategy raises. An unfound anchor
    always ends in a page-wide pass gated by `allow_redaction`, and a match
    right of an anchor skips the search inside it.

    Its learner is `RuleLearner` with the legacy word clean-up and the fixed
    customer keyword list; its sanitiser and fingerprint are those of
    `KnowledgeBase`. */
module ContractMasking {
  import opened Text
  import opened Basics
  import opened Constants
  import opened DigitRuns
  import opened Geometry
  import opened Document
  import opened Config
  import opened KnowledgeBase
  import opened RuleLearner
  import opened Redactor

  /** `learn_customer_rules_with_ai`: the learner with the fixed keyword list
      (the configured list is never read, the loader being called before it
      is defined) and the legacy word clean-up. */
  function LegacyLearner(labels: LabelFinder): Learner {
    Learner(CustomerKeywords, labels, true)
  }

  /* ------------------------------------------------------------ keep counts */

  /** The keep counts of `apply_rules`: `REDACTION_CONFIG.get(kind, {})` with
      2/2 for an ID and 4/2 for a phone number per missing key. */
  function LegacyKeep(cfg: Config, kind: Kind, token: string): (lr: (int, int))
    ensures var d := Digits(token);
      && (IdClassified(kind, d) && |d| >= 4 ==>
            lr == (Lookup(cfg, "id", "left_keep", 2), Lookup(cfg, "id", "right_keep", 2)))
      && (!(IdClassified(kind, d) && |d| >= 4) && PhoneClassified(kind, d) && |d| >= 6 ==>
            lr == (Lookup(cfg, "phone", "left_keep", 4), Lookup(cfg, "phone", "right_keep", 2)))
      && (!(IdClassified(kind, d) && |d| >= 4) && !(PhoneClassified(kind, d) && |d| >= 6) ==> lr == (0, 0))
  {
    var d := Digits(token);
    if IdClassified(kind, d) && |d| >= 4 then
      (Lookup(cfg, "id", "left_keep", 2), Lookup(cfg, "id", "right_keep", 2))
    else if PhoneClassified(kind, d) && |d| >= 6 then
      (Lookup(cfg, "phone", "left_keep", 4), Lookup(cfg, "phone", "right_keep", 2))
    else (0, 0)
  }

  /** A configuration that states all four counts gives the same keep counts
      here as in the `Redactor`. */
  predicate StatesAllCounts(cfg: Config) {
    && "id" in cfg.sections && "left_keep" in cfg.sections["id"] && "right_keep" in cfg.sections["id"]
    && "phone" in cfg.sections && "left_keep" in cfg.sections["phone"] && "right_keep" in cfg.sections["phone"]
  }

  lemma LegacyKeepAgrees(cfg: Config, kind: Kind, token: string)
    requires StatesAllCounts(cfg)
    ensures LegacyKeep(cfg, kind, token) == ComputeKeep(cfg, kind, token)
  {
  }

  /** Without the file both read the same built-in counts; with a file that
      lacks the `id` section they part: here an ID keeps 2 + 2 digits, in the
      `Redactor` none. */
  lemma LegacyKeepDefaults(src: ConfigSource, cfg: Config, kind: Kind, token: string)
    ensures !src.Parsed? ==> LegacyKeep(LoadConfig(src), kind, token) == ComputeKeep(LoadConfig(src), kind, token)
    ensures "id" !in cfg.sections && IdClassified(kind, Digits(token)) && |Digits(token)| >= 4 ==>
      LegacyKeep(cfg, kind, token) == (2, 2) && ComputeKeep(cfg, kind, token) == (0, 0)
  {
    if !src.Parsed? {
      assert StatesAllCounts(LoadConfig(src));
      LegacyKeepAgrees(LoadConfig(src), kind, token);
    }
  }

  /* -------------------------------------------------------------- previews */

  /** The nested `mask_token_display(token, pattern_str)`. */
  function MaskTokenDisplay(token: string, kind: Kind): (m: string)
    ensures var d := Digits(token);
      if (IdClassified(kind, d) && |d| >= 4) || (PhoneClassified(kind, d) && |d| >= 6) then |m| == |d|
      else |m| == |token|
    ensures var d := Digits(token);
      !(IdClassified(kind, d) && |d| >= 4) && !(PhoneClassified(kind, d) && |d| >= 6) ==>
        if |token| > 2 then
          && m[0] == token[0] && m[|m| - 1] == token[|token| - 1]
          && forall k | 0 < k < |m| - 1 :: m[k] == '*'
        else forall k | 0 <= k < |m| :: m[k] == '*'
  {
    var d := Digits(token);
    if IdClassified(kind, d) && |d| >= 4 then d[..2] + Stars(|d| - 4) + d[|d| - 2..]
    else if PhoneClassified(kind, d) && |d| >= 6 then d[..4] + Stars(|d| - 6) + d[|d| - 2..]
    else if |token| > 2 then [token[0]] + Stars(|token| - 2) + [token[|token| - 1]]
    else Stars(|token|)
  }

  /** For an ID or phone number, the masked display and the overlay preview
      show the same digits: the display keeps digit `k` exactly when it is
      among the first `left` or last `right` (the built-in keep counts) and
      stars the rest, and the preview is those kept digits around `...`. */
  lemma MaskDisplayMatchesOverlay(token: string, kind: Kind)
    requires var d := Digits(token);
      (IdClassified(kind, d) && |d| >= 4) || (PhoneClassified(kind, d) && |d| >= 6)
    ensures var d := Digits(token);
      var (l, r) := ComputeKeep(DefaultConfig, kind, token);
      var m := MaskTokenDisplay(token, kind);
      && |m| == |d|
      && (forall k | 0 <= k < |d| :: if l <= k < |d| - r then m[k] == '*' else m[k] == d[k])
      && VisibleOverlay(token, kind) == d[..l] + "..." + d[|d| - r..]
  {
    var d := Digits(token);
    OverlayShowsKeptDigits(kind, token);
    ComputeKeepDefaults(kind, token);
    if IdClassified(kind, d) && |d| >= 4 {
      KeptAroundStars(d, 2, 2);
    } else {
      KeptAroundStars(d, 4, 2);
    }
  }

  /** Keeping the first `l` and last `r` characters around stars keeps the
      length and stars exactly the positions in between. */
  lemma KeptAroundStars(d: string, l: nat, r: nat)
    requires l + r <= |d|
    ensures var m := d[..l] + Stars(|d| - l - r) + d[|d| - r..];
      |m| == |d| && forall k | 0 <= k < |d| :: if l <= k < |d| - r then m[k] == '*' else m[k] == d[k]
  {
    var m := d[..l] + Stars(|d| - l - r) + d[|d| - r..];
    forall k | 0 <= k < |d|
      ensures if l <= k < |d| - r then m[k] == '*' else m[k] == d[k]
    {
      if k < l {
        assert m[k] == d[..l][k];
      } else if k < |d| - r {
        assert m[k] == Stars(|d| - l - r)[k - l];
      } else {
        assert m[k] == d[|d| - r..][k - (|d| - r)];
      }
    }
  }

  /** A short token with no ID or phone reading is starred whole. */
  lemma MaskDisplayShortToken(token: string, kind: Kind)
    requires |token| <= 2
    ensures MaskTokenDisplay(token, kind) == Stars(|token|)
  {
  }

  /** The text finally written on a box (`overlays` loop): for an
      ID-classified token the first two and last two digits around `...`, or
      the bare digits under four; otherwise the stored preview. */
  function LegacyOverlayText(e: OverlayEntry): string {
    var d := Digits(e.token);
    if IdClassified(e.kind, d) then (if |d| >= 4 then d[..2] + "..." + d[|d| - 2..] else d)
    else e.text
  }

  /** For a token with digits (every matched token is a digit run), the
      written text is the stored preview, except for an ID-classified token of
      exactly three digits, written bare where the preview was first `...`
      last. */
  lemma LegacyOverlayTextIsPreview(e: OverlayEntry)
    requires e.text == VisibleOverlay(e.token, e.kind)
    requires Digits(e.token) != []
    ensures LegacyOverlayText(e) == e.text <==> !(IdClassified(e.kind, Digits(e.token)) && |Digits(e.token)| == 3)
  {
    var d := Digits(e.token);
    if IdClassified(e.kind, d) && |d| == 3 {
      assert !PhoneShape(d);
      assert e.text == [d[0]] + "..." + [d[2]];
      assert |LegacyOverlayText(e)| == 3 != |e.text|;
    }
  }

  /* ------------------------------------------------------- middle rectangle */

  /** The nested `get_mid_redact_rect`: the per-character path whenever the
      page offers character boxes, else the proportional split. */
  function LegacyMidRect(p: Page, area: Rect, token: string, left: int, right: int): Rect {
    var d := Digits(token);
    if d == [] then area
    else
      var fallback := ProportionalRect(area, |d|, left, right);
      match p.chars
      case None => fallback
      case Some(cs) =>
        match CharPathRect(cs, area, left, right)
        case Some(rc) => rc
        case None => fallback
  }

  /** The `Redactor` computes the same rectangle, unless its probe has been
      switched off by an earlier page without character boxes while this page
      has them. */
  lemma LegacyMidRectAgrees(probe: ProbeState, p: Page, area: Rect, token: string, left: int, right: int)
    requires probe != Unsupported || p.chars.None?
    ensures MidRect(probe, p, area, token, left, right).rect == LegacyMidRect(p, area, token, left, right)
  {
  }

  /* ------------------------------------------------------------ the gate */

  /** What `allow_redaction` knows besides the page: whether strict person
      mode is on (`REQUIRE_NEAR_PERSON=1` and a pipeline is given) and the
      person boxes of the page. */
  datatype Gate = Gate(strict: bool, persons: seq<Rect>)

  /** A person box widened by 200 horizontally and 30 vertically. */
  function PersonReach(pr: Rect): Rect {
    Rect(pr.x0 - 200.0, pr.y0 - 30.0, pr.x1 + 200.0, pr.y1 + 30.0)
  }

  /** The nested `is_near_person(page_num, area)`. */
  predicate IsNearPerson(g: Gate, area: Rect) {
    if !g.strict then true
    else if g.persons == [] then false
    else exists k | 0 <= k < |g.persons| :: Intersects(PersonReach(g.persons[k]), area)
  }

  /** True whenever strict mode is off, false without person boxes, and
      otherwise true exactly when some widened person box meets the area. */
  lemma IsNearPersonCases(g: Gate, area: Rect)
    ensures !g.strict ==> IsNearPerson(g, area)
    ensures g.strict && g.persons == [] ==> !IsNearPerson(g, area)
    ensures g.strict ==>
      (IsNearPerson(g, area) <==> exists pr | pr in g.persons :: Intersects(PersonReach(pr), area))
  {
    if g.strict && IsNearPerson(g, area) && g.persons != [] {
      var k :| 0 <= k < |g.persons| && Intersects(PersonReach(g.persons[k]), area);
      assert g.persons[k] in g.persons;
    }
  }

  /** The nested `allow_redaction(page_num, page, area, anchor)`. */
  function AllowRedaction(g: Gate, p: Page, area: Rect, anchor: string): (ok: bool)
    ensures !IsBlank(anchor) ==> ok
    ensures IsBlank(anchor) && !g.strict ==> (ok <==> NearCustomerKeyword(p, area, CustomerKeywords))
    ensures IsBlank(anchor) && g.strict ==>
      (ok <==> NearCustomerKeyword(p, area, CustomerKeywords) || IsNearPerson(g, area))
  {
    if !IsBlank(anchor) then true
    else if NearCustomerKeyword(p, area, CustomerKeywords) then true
    else g.strict && IsNearPerson(g, area)
  }

  /** The person boxes of one page in strict mode: none on a blank page,
      otherwise every occurrence of every distinct name the pipeline finds. */
  function PersonRects(p: Page, ner: PersonFinder): seq<Rect> {
    if IsBlank(p.text) then [] else NamesOccurrences(p, Dedup(ner(p.text)))
  }

  function NamesOccurrences(p: Page, names: seq<string>): (rs: seq<Rect>)
    decreases |names|
  {
    if names == [] then [] else p.search(names[0]) + NamesOccurrences(p, names[1..])
  }

  /* ------------------------------------------------------------- recording */

  /** The running state of the monolithic `apply_rules`: count, overlay list,
      and whether a drawing failure has escaped. */
  datatype LAcc = LAcc(count: nat, overlays: seq<OverlayEntry>, raised: bool)

  /** Every entry here is a painted box, so the count is the list length. */
  predicate LegacyConsistent(a: LAcc) {
    a.count == |a.overlays| && forall k | 0 <= k < |a.overlays| :: a.overlays[k].drawn
  }

  /** `after` continues `before`: entries only appended, on page `pageNum`
      with kind `kind`; counts consistent; nothing happens once raised. */
  predicate LExtends(before: LAcc, after: LAcc, pageNum: nat, kind: Kind) {
    && |before.overlays| <= |after.overlays|
    && (forall k | 0 <= k < |before.overlays| :: after.overlays[k] == before.overlays[k])
    && (forall k | |before.overlays| <= k < |after.overlays| ::
          after.overlays[k].page == pageNum && after.overlays[k].kind == kind)
    && (LegacyConsistent(before) ==> LegacyConsistent(after))
    && (before.raised ==> after == before)
  }

  lemma LExtendsTrans(a: LAcc, b: LAcc, c: LAcc, pageNum: nat, kind: Kind)
    requires LExtends(a, b, pageNum, kind) && LExtends(b, c, pageNum, kind)
    ensures LExtends(a, c, pageNum, kind)
  {
  }

  /** The box the monolithic module computes for an area of a token. */
  function LRect(cfg: Config, p: Page, area: Rect, token: string, kind: Kind): Rect {
    var (l, r) := LegacyKeep(cfg, kind, token);
    LegacyMidRect(p, area, token, l, r)
  }

  /** `allow_redaction` lets the area's box through. */
  predicate LAllowed(cfg: Config, g: Gate, p: Page, area: Rect, token: string, kind: Kind, anchor: string) {
    AllowRedaction(g, p, LRect(cfg, p, area, token, kind), anchor)
  }

  /** Painting the area's box, when allowed, does not raise. */
  predicate LPaintable(cfg: Config, g: Gate, p: Page, area: Rect, token: string, kind: Kind, anchor: string) {
    LAllowed(cfg, g, p, area, token, kind, anchor) ==> DrawFilledRect(p, LRect(cfg, p, area, token, kind)).ok
  }

  /** How many of a token's areas the gate lets through. */
  function LAllowedCount(cfg: Config, g: Gate, p: Page, areas: seq<Rect>, token: string, kind: Kind,
                         anchor: string): nat
    decreases |areas|
  {
    if areas == [] then 0
    else (if LAllowed(cfg, g, p, areas[0], token, kind, anchor) then 1 else 0)
         + LAllowedCount(cfg, g, p, areas[1..], token, kind, anchor)
  }

  /** No area of a token raises. */
  predicate LNoFailure(cfg: Config, g: Gate, p: Page, areas: seq<Rect>, token: string, kind: Kind, anchor: string) {
    forall k | 0 <= k < |areas| :: LPaintable(cfg, g, p, areas[k], token, kind, anchor)
  }

  /** One area of one token: compute the keep counts and the box, and if the
      gate allows it, paint it (raising when no strategy works) and record
      it. */
  function LRecord(cfg: Config, g: Gate, a: LAcc, p: Page, pageNum: nat, area: Rect, token: string, kind: Kind,
                   anchor: string): (out: LAcc)
    ensures LExtends(a, out, pageNum, kind)
    ensures |out.overlays| <= |a.overlays| + 1
    ensures !a.raised ==>
      var (l, r) := LegacyKeep(cfg, kind, token);
      var rect := LegacyMidRect(p, area, token, l, r);
      && (!AllowRedaction(g, p, rect, anchor) ==> out == a)
      && (AllowRedaction(g, p, rect, anchor) && !DrawFilledRect(p, rect).ok ==> out == a.(raised := true))
      && (AllowRedaction(g, p, rect, anchor) && DrawFilledRect(p, rect).ok ==>
            out.overlays == a.overlays + [OverlayEntry(pageNum, rect, VisibleOverlay(token, kind), kind, token, true)])
    ensures EntriesFor(out.overlays, |a.overlays|, [token])
  {
    if a.raised then a
    else
      var (l, r) := LegacyKeep(cfg, kind, token);
      var rect := LegacyMidRect(p, area, token, l, r);
      if !AllowRedaction(g, p, rect, anchor) then a
      else if !DrawFilledRect(p, rect).ok then a.(raised := true)
      else
        var e := OverlayEntry(pageNum, rect, VisibleOverlay(token, kind), kind, token, true);
        LAppendExtends(a, e);
        LAcc(a.count + 1, a.overlays + [e], false)
  }

  /** Appending one painted entry with its preview continues the accumulator. */
  lemma LAppendExtends(a: LAcc, e: OverlayEntry)
    requires !a.raised && e.drawn && e.text == VisibleOverlay(e.token, e.kind)
    ensures var out := LAcc(a.count + 1, a.overlays + [e], false);
      LExtends(a, out, e.page, e.kind) && EntriesFor(out.overlays, |a.overlays|, [e.token])
  {
    var out := LAcc(a.count + 1, a.overlays + [e], false);
    assert out.overlays[|a.overlays|] == e;
    if LegacyConsistent(a) {
      forall k | 0 <= k < |out.overlays|
        ensures out.overlays[k].drawn
      {
        if k < |a.overlays| {
          assert out.overlays[k] == a.overlays[k];
        }
      }
    }
  }

  function LRecordAll(cfg: Config, g: Gate, a: LAcc, p: Page, pageNum: nat, areas: seq<Rect>, token: string,
                      kind: Kind, anchor: string): (out: LAcc)
    ensures LExtends(a, out, pageNum, kind)
    ensures |out.overlays| <= |a.overlays| + |areas|
    ensures EntriesFor(out.overlays, |a.overlays|, [token])
    ensures !a.raised && LNoFailure(cfg, g, p, areas, token, kind, anchor) ==>
      !out.raised && |out.overlays| == |a.overlays| + LAllowedCount(cfg, g, p, areas, token, kind, anchor)
    decreases |areas|
  {
    if areas == [] then a
    else
      var b := LRecord(cfg, g, a, p, pageNum, areas[0], token, kind, anchor);
      var out := LRecordAll(cfg, g, b, p, pageNum, areas[1..], token, kind, anchor);
      LExtendsTrans(a, b, out, pageNum, kind);
      out
  }

  /* -------------------------------------------------------- sanitised path */

  /** Whether some label occurrence accepts the token's area (the inner loop
      that breaks on the first accepting label). */
  predicate NearSomeLabel(p: Page, lrs: seq<Rect>, area: Rect, kind: Kind, token: string) {
    exists k | 0 <= k < |lrs| :: IsLabelTokenOk(p, lrs[k], area, kind, token)
  }

  /** How many of a token's areas some label accepts and the gate lets
      through. */
  function LSanCount(cfg: Config, g: Gate, p: Page, lrs: seq<Rect>, areas: seq<Rect>, token: string, kind: Kind,
                     anchor: string): nat
    decreases |areas|
  {
    if areas == [] then 0
    else (if NearSomeLabel(p, lrs, areas[0], kind, token) && LAllowed(cfg, g, p, areas[0], token, kind, anchor)
          then 1 else 0)
         + LSanCount(cfg, g, p, lrs, areas[1..], token, kind, anchor)
  }

  /** No label-accepted area of a token raises. */
  predicate LSanNoFailure(cfg: Config, g: Gate, p: Page, lrs: seq<Rect>, areas: seq<Rect>, token: string, kind: Kind,
                          anchor: string) {
    forall k | 0 <= k < |areas| ::
      NearSomeLabel(p, lrs, areas[k], kind, token) ==> LPaintable(cfg, g, p, areas[k], token, kind, anchor)
  }

  /** One area of one token: recorded once if some label accepts it. */
  function LSanitizedArea(cfg: Config, g: Gate, a: LAcc, p: Page, pageNum: nat, lrs: seq<Rect>, area: Rect,
                          token: string, kind: Kind, anchor: string): (out: LAcc)
    ensures LExtends(a, out, pageNum, kind)
    ensures |out.overlays| <= |a.overlays| + 1
    ensures !NearSomeLabel(p, lrs, area, kind, token) ==> out == a
    ensures NearSomeLabel(p, lrs, area, kind, token) ==> out == LRecord(cfg, g, a, p, pageNum, area, token, kind, anchor)
    ensures EntriesFor(out.overlays, |a.overlays|, [token])
  {
    if !NearSomeLabel(p, lrs, area, kind, token) then a
    else LRecord(cfg, g, a, p, pageNum, area, token, kind, anchor)
  }

  function LSanitizedAreas(cfg: Config, g: Gate, a: LAcc, p: Page, pageNum: nat, lrs: seq<Rect>, areas: seq<Rect>,
                           token: string, kind: Kind, anchor: string): (out: LAcc)
    ensures LExtends(a, out, pageNum, kind)
    ensures |out.overlays| <= |a.overlays| + |areas|
    ensures EntriesFor(out.overlays, |a.overlays|, [token])
    ensures !a.raised && LSanNoFailure(cfg, g, p, lrs, areas, token, kind, anchor) ==>
      !out.raised && |out.overlays| == |a.overlays| + LSanCount(cfg, g, p, lrs, areas, token, kind, anchor)
    decreases |areas|
  {
    if areas == [] then a
    else
      var b := LSanitizedArea(cfg, g, a, p, pageNum, lrs, areas[0], token, kind, anchor);
      var out := LSanitizedAreas(cfg, g, b, p, pageNum, lrs, areas[1..], token, kind, anchor);
      LExtendsTrans(a, b, out, pageNum, kind);
      out
  }

  /** The label-accepted, allowed areas of every occurrence of every token. */
  function LSanTokenCount(cfg: Config, g: Gate, p: Page, lrs: seq<Rect>, tokens: seq<string>, kind: Kind,
                          anchor: string): nat
    decreases |tokens|
  {
    if tokens == [] then 0
    else LSanCount(cfg, g, p, lrs, p.search(tokens[0]), tokens[0], kind, anchor)
         + LSanTokenCount(cfg, g, p, lrs, tokens[1..], kind, anchor)
  }

  /** No label-accepted area of any token raises. */
  predicate LSanTokensNoFailure(cfg: Config, g: Gate, p: Page, lrs: seq<Rect>, tokens: seq<string>, kind: Kind,
                                anchor: string)
    decreases |tokens|
  {
    tokens != [] ==>
      && LSanNoFailure(cfg, g, p, lrs, p.search(tokens[0]), tokens[0], kind, anchor)
      && LSanTokensNoFailure(cfg, g, p, lrs, tokens[1..], kind, anchor)
  }

  function LSanitizedTokens(cfg: Config, g: Gate, a: LAcc, p: Page, pageNum: nat, lrs: seq<Rect>,
                            tokens: seq<string>, kind: Kind, anchor: string): (out: LAcc)
    ensures LExtends(a, out, pageNum, kind)
    ensures EntriesFor(out.overlays, |a.overlays|, tokens)
    ensures !a.raised && LSanTokensNoFailure(cfg, g, p, lrs, tokens, kind, anchor) ==>
      !out.raised && |out.overlays| == |a.overlays| + LSanTokenCount(cfg, g, p, lrs, tokens, kind, anchor)
    decreases |tokens|
  {
    if tokens == [] then a
    else
      var b := LSanitizedAreas(cfg, g, a, p, pageNum, lrs, p.search(tokens[0]), tokens[0], kind, anchor);
      var out := LSanitizedTokens(cfg, g, b, p, pageNum, lrs, tokens[1..], kind, anchor);
      LExtendsTrans(a, b, out, pageNum, kind);
      EntriesForJoin(a.overlays, b.overlays, out.overlays, tokens);
      out
  }

  /** The sanitised-anchor block: find the label, then record each match of
      the pattern accepted by some label occurrence. A drawing failure inside
      is swallowed, keeping what was recorded before it. */
  function LegacySanitized(cfg: Config, g: Gate, a: LAcc, p: Page, pageNum: nat, anchor: string, kind: Kind): (out: LAcc)
    requires !a.raised
    ensures !out.raised
    ensures |a.overlays| <= |out.overlays|
    ensures forall k | 0 <= k < |a.overlays| :: out.overlays[k] == a.overlays[k]
    ensures forall k | |a.overlays| <= k < |out.overlays| :: out.overlays[k].page == pageNum && out.overlays[k].kind == kind
    ensures LegacyConsistent(a) ==> LegacyConsistent(out)
    ensures LabelOfAnchor(anchor) == [] || LabelRects(p, LabelOfAnchor(anchor)) == [] ==> out == a
    ensures EntriesFor(out.overlays, |a.overlays|, FindIter(p.text, KindRun(kind)))
    ensures var lrs := LabelRects(p, LabelOfAnchor(anchor));
      LabelOfAnchor(anchor) != [] && lrs != [] ==>
        out == LSanitizedTokens(cfg, g, a, p, pageNum, lrs, FindIter(p.text, KindRun(kind)), kind, anchor).(raised := false)
    ensures var lrs := LabelRects(p, LabelOfAnchor(anchor));
      var ms := FindIter(p.text, KindRun(kind));
      LabelOfAnchor(anchor) != [] && lrs != [] && LSanTokensNoFailure(cfg, g, p, lrs, ms, kind, anchor) ==>
        |out.overlays| == |a.overlays| + LSanTokenCount(cfg, g, p, lrs, ms, kind, anchor)
  {
    var labelText := LabelOfAnchor(anchor);
    if labelText == [] then a
    else
      var lrs := LabelRects(p, labelText);
      if lrs == [] then a
      else LSanitizedTokens(cfg, g, a, p, pageNum, lrs, FindIter(p.text, KindRun(kind)), kind, anchor).(raised := false)
  }

  /* ---------------------------------------------------------- anchor path */

  /** Whether an anchor occurrence has a match right of it or inside it. */
  predicate LMatches(p: Page, an: Rect, kind: Kind) {
    Search(Strip(p.clipText(RightWindow(an))), KindRun(kind)).Some? || Search(Strip(p.clipText(an)), KindRun(kind)).Some?
  }

  /** The match an occurrence records: the window's when there is one, else
      the one inside the anchor ("" when neither). */
  function LMatchToken(p: Page, an: Rect, kind: Kind): string {
    match Search(Strip(p.clipText(RightWindow(an))), KindRun(kind))
    case Some(token) => token
    case None =>
      match Search(Strip(p.clipText(an)), KindRun(kind))
      case Some(token) => token
      case None => ""
  }

  /** The boxes that match is looked for in: the window's occurrences of the
      window match, else the anchor's own occurrences of the inside match. */
  function LMatchAreas(p: Page, an: Rect, kind: Kind): seq<Rect> {
    match Search(Strip(p.clipText(RightWindow(an))), KindRun(kind))
    case Some(token) => p.searchIn(token, RightWindow(an))
    case None =>
      match Search(Strip(p.clipText(an)), KindRun(kind))
      case Some(token) => p.searchIn(token, an)
      case None => []
  }

  /** One anchor occurrence: a match in the window to its right is recorded
      at every occurrence in that window and the inside search is skipped;
      otherwise a match inside the anchor is recorded at every occurrence
      there. The flag says whether either matched. */
  function LegacyOccurrence(cfg: Config, g: Gate, a: LAcc, p: Page, pageNum: nat, an: Rect, kind: Kind,
                            anchor: string): (out: (LAcc, bool))
    ensures LExtends(a, out.0, pageNum, kind)
    ensures Search(Strip(p.clipText(RightWindow(an))), KindRun(kind)).Some? ==>
      var token := Search(Strip(p.clipText(RightWindow(an))), KindRun(kind)).value;
      out == (LRecordAll(cfg, g, a, p, pageNum, p.searchIn(token, RightWindow(an)), token, kind, anchor), true)
    ensures Search(Strip(p.clipText(RightWindow(an))), KindRun(kind)).None?
            && Search(Strip(p.clipText(an)), KindRun(kind)).Some? ==>
      var token := Search(Strip(p.clipText(an)), KindRun(kind)).value;
      out == (LRecordAll(cfg, g, a, p, pageNum, p.searchIn(token, an), token, kind, anchor), true)
    ensures out.1 <==>
      Search(Strip(p.clipText(RightWindow(an))), KindRun(kind)).Some? || Search(Strip(p.clipText(an)), KindRun(kind)).Some?
    ensures out.0 == LRecordAll(cfg, g, a, p, pageNum, LMatchAreas(p, an, kind), LMatchToken(p, an, kind), kind, anchor)
  {
    var window := RightWindow(an);
    match Search(Strip(p.clipText(window)), KindRun(kind))
    case Some(token) => (LRecordAll(cfg, g, a, p, pageNum, p.searchIn(token, window), token, kind, anchor), true)
    case None =>
      match Search(Strip(p.clipText(an)), KindRun(kind))
      case Some(token) => (LRecordAll(cfg, g, a, p, pageNum, p.searchIn(token, an), token, kind, anchor), true)
      case None => (a, false)
  }

  /** The matches the occurrences record, in order. */
  function LOccurrenceTokens(p: Page, ans: seq<Rect>, kind: Kind): seq<string>
    decreases |ans|
  {
    if ans == [] then []
    else (if LMatches(p, ans[0], kind) then [LMatchToken(p, ans[0], kind)] else []) + LOccurrenceTokens(p, ans[1..], kind)
  }

  /** The allowed boxes over all occurrences. */
  function LOccurrenceCount(cfg: Config, g: Gate, p: Page, ans: seq<Rect>, kind: Kind, anchor: string): nat
    decreases |ans|
  {
    if ans == [] then 0
    else LAllowedCount(cfg, g, p, LMatchAreas(p, ans[0], kind), LMatchToken(p, ans[0], kind), kind, anchor)
         + LOccurrenceCount(cfg, g, p, ans[1..], kind, anchor)
  }

  /** No allowed box of any occurrence raises. */
  predicate LOccurrenceNoFailure(cfg: Config, g: Gate, p: Page, ans: seq<Rect>, kind: Kind, anchor: string) {
    forall i | 0 <= i < |ans| ::
      LNoFailure(cfg, g, p, LMatchAreas(p, ans[i], kind), LMatchToken(p, ans[i], kind), kind, anchor)
  }

  /** The loop over the anchor's occurrences: every occurrence records its
      match, and the flag says whether any occurrence matched. */
  function LegacyOccurrences(cfg: Config, g: Gate, a: LAcc, p: Page, pageNum: nat, ans: seq<Rect>, kind: Kind,
                             anchor: string): (out: (LAcc, bool))
    ensures LExtends(a, out.0, pageNum, kind)
    ensures !out.1 ==> out.0 == a
    ensures out.1 <==> exists i | 0 <= i < |ans| :: LMatches(p, ans[i], kind)
    ensures EntriesFor(out.0.overlays, |a.overlays|, LOccurrenceTokens(p, ans, kind))
    ensures !a.raised && LOccurrenceNoFailure(cfg, g, p, ans, kind, anchor) ==>
      !out.0.raised && |out.0.overlays| == |a.overlays| + LOccurrenceCount(cfg, g, p, ans, kind, anchor)
    decreases |ans|
  {
    if ans == [] then (a, false)
    else
      var first := LegacyOccurrence(cfg, g, a, p, pageNum, ans[0], kind, anchor);
      var rest := LegacyOccurrences(cfg, g, first.0, p, pageNum, ans[1..], kind, anchor);
      LExtendsTrans(a, first.0, rest.0, pageNum, kind);
      LOccurrencesStep(p, ans, kind, rest.1);
      var ts := if LMatches(p, ans[0], kind) then [LMatchToken(p, ans[0], kind)] else [];
      assert EntriesFor(first.0.overlays, |a.overlays|, ts) by {
        if !LMatches(p, ans[0], kind) { assert LMatchAreas(p, ans[0], kind) == []; }
      }
      EntriesForConcat(a.overlays, first.0.overlays, rest.0.overlays, ts, LOccurrenceTokens(p, ans[1..], kind));
      LOccurrenceNoFailureSplit(cfg, g, p, ans, kind, anchor);
      (rest.0, first.1 || rest.1)
  }

  /** No occurrence failing is the first not failing and no later one
      failing. */
  lemma LOccurrenceNoFailureSplit(cfg: Config, g: Gate, p: Page, ans: seq<Rect>, kind: Kind, anchor: string)
    requires ans != []
    ensures LOccurrenceNoFailure(cfg, g, p, ans, kind, anchor) ==>
      && LNoFailure(cfg, g, p, LMatchAreas(p, ans[0], kind), LMatchToken(p, ans[0], kind), kind, anchor)
      && LOccurrenceNoFailure(cfg, g, p, ans[1..], kind, anchor)
  {
    if LOccurrenceNoFailure(cfg, g, p, ans, kind, anchor) {
      forall i | 0 <= i < |ans[1..]|
        ensures LNoFailure(cfg, g, p, LMatchAreas(p, ans[1..][i], kind), LMatchToken(p, ans[1..][i], kind),
                           kind, anchor)
      {
        assert ans[1..][i] == ans[i + 1];
      }
    }
  }

  /** Some occurrence matches exactly when the first one does or one of the
      rest does. */
  lemma LOccurrencesStep(p: Page, ans: seq<Rect>, kind: Kind, restMatched: bool)
    requires ans != []
    requires restMatched <==> exists i | 0 <= i < |ans[1..]| :: LMatches(p, ans[1..][i], kind)
    ensures (LMatches(p, ans[0], kind) || restMatched) <==> exists i | 0 <= i < |ans| :: LMatches(p, ans[i], kind)
  {
    if exists i | 0 <= i < |ans| :: LMatches(p, ans[i], kind) {
      var i :| 0 <= i < |ans| && LMatches(p, ans[i], kind);
      if i > 0 { assert ans[1..][i - 1] == ans[i]; }
    }
    if restMatched {
      var i :| 0 <= i < |ans[1..]| && LMatches(p, ans[1..][i], kind);
      assert ans[i + 1] == ans[1..][i];
    }
  }

  /* ---------------------------------------------------------- page-wide pass */

  /** The allowed occurrences of every token, with an empty anchor. */
  function LPageCount(cfg: Config, g: Gate, p: Page, tokens: seq<string>, kind: Kind): nat
    decreases |tokens|
  {
    if tokens == [] then 0
    else LAllowedCount(cfg, g, p, p.search(tokens[0]), tokens[0], kind, "") + LPageCount(cfg, g, p, tokens[1..], kind)
  }

  /** No allowed occurrence of any token raises. */
  predicate LPageNoFailure(cfg: Config, g: Gate, p: Page, tokens: seq<string>, kind: Kind)
    decreases |tokens|
  {
    tokens != [] ==>
      && LNoFailure(cfg, g, p, p.search(tokens[0]), tokens[0], kind, "")
      && LPageNoFailure(cfg, g, p, tokens[1..], kind)
  }

  function LegacyPageWideTokens(cfg: Config, g: Gate, a: LAcc, p: Page, pageNum: nat, tokens: seq<string>,
                                kind: Kind): (out: LAcc)
    ensures LExtends(a, out, pageNum, kind)
    ensures EntriesFor(out.overlays, |a.overlays|, tokens)
    ensures !a.raised && LPageNoFailure(cfg, g, p, tokens, kind) ==>
      !out.raised && |out.overlays| == |a.overlays| + LPageCount(cfg, g, p, tokens, kind)
    decreases |tokens|
  {
    if tokens == [] then a
    else
      var b := LRecordAll(cfg, g, a, p, pageNum, p.search(tokens[0]), tokens[0], kind, "");
      var out := LegacyPageWideTokens(cfg, g, b, p, pageNum, tokens[1..], kind);
      LExtendsTrans(a, b, out, pageNum, kind);
      EntriesForJoin(a.overlays, b.overlays, out.overlays, tokens);
      out
  }

  /** The page-wide pass: every match of the pattern at every occurrence,
      each gated by `allow_redaction` with an empty anchor; without a drawing
      failure, one painted entry per allowed occurrence. */
  function LegacyPageWide(cfg: Config, g: Gate, a: LAcc, p: Page, pageNum: nat, kind: Kind): (out: LAcc)
    ensures LExtends(a, out, pageNum, kind)
    ensures EntriesFor(out.overlays, |a.overlays|, FindIter(p.text, KindRun(kind)))
    ensures !a.raised && LPageNoFailure(cfg, g, p, FindIter(p.text, KindRun(kind)), kind) ==>
      !out.raised && |out.overlays| == |a.overlays| + LPageCount(cfg, g, p, FindIter(p.text, KindRun(kind)), kind)
  {
    LegacyPageWideTokens(cfg, g, a, p, pageNum, FindIter(p.text, KindRun(kind)), kind)
  }

  /** With an empty anchor and strict mode off, an area is painted only near
      a customer keyword. */
  lemma PageWideNeedsKeyword(g: Gate, p: Page, area: Rect)
    requires !g.strict
    ensures AllowRedaction(g, p, area, "") <==> NearCustomerKeyword(p, area, CustomerKeywords)
  {
  }

  /* ------------------------------------------------------------ dispatching */

  /** The switches the monolithic `apply_rules` reads. */
  datatype LegacyEnv = LegacyEnv(rulesOnly: bool, requireNearPerson: bool, allowPageWide: bool)

  /** The gate for one page. */
  function PageGate(env: LegacyEnv, ner: Option<PersonFinder>, p: Page): Gate {
    var strict := env.requireNearPerson && ner.Some?;
    Gate(strict, if strict then PersonRects(p, ner.value) else [])
  }

  /** One rule of the monolithic `apply_rules`. An anchor with a placeholder
      that is not found first goes through the sanitised block; then a found
      anchor goes through its occurrences (and the page-wide pass only if
      none matched and `ALLOW_PAGE_WIDE_FALLBACK=1`), while an anchor that is
      empty or not found always goes through the page-wide pass. */
  function LegacyApplyRule(cfg: Config, env: LegacyEnv, ner: Option<PersonFinder>, a: LAcc, doc: Doc,
                           rule: Rule): (out: LAcc)
    ensures LExtends(a, out, rule.page, rule.pattern)
    ensures a.raised || rule.page >= |doc.pages| ==> out == a
    ensures !a.raised && rule.page < |doc.pages| ==>
      var p := doc.pages[rule.page];
      var g := PageGate(env, ner, p);
      var found := rule.anchor != [] && p.search(rule.anchor) != [];
      && (!found && !(rule.anchor != [] && HasPlaceholder(rule.anchor)) ==>
            out == LegacyPageWide(cfg, g, a, p, rule.page, rule.pattern))
      && (!found && rule.anchor != [] && HasPlaceholder(rule.anchor) ==>
            out == LegacyPageWide(cfg, g, LegacySanitized(cfg, g, a, p, rule.page, rule.anchor, rule.pattern),
                                  p, rule.page, rule.pattern))
      && (found ==>
            var (c, matched) := LegacyOccurrences(cfg, g, a, p, rule.page, p.search(rule.anchor), rule.pattern,
                                                  rule.anchor);
            out == if !matched && env.allowPageWide then LegacyPageWide(cfg, g, c, p, rule.page, rule.pattern) else c)
  {
    if a.raised || rule.page >= |doc.pages| then a
    else
      var p := doc.pages[rule.page];
      var g := PageGate(env, ner, p);
      var ans := p.search(rule.anchor);
      var b := if rule.anchor != [] && ans == [] && HasPlaceholder(rule.anchor)
               then LegacySanitized(cfg, g, a, p, rule.page, rule.anchor, rule.pattern)
               else a;
      assert LExtends(a, b, rule.page, rule.pattern);
      if rule.anchor != [] && ans != [] then
        var (c, matched) := LegacyOccurrences(cfg, g, b, p, rule.page, ans, rule.pattern, rule.anchor);
        if !matched && env.allowPageWide then
          var out := LegacyPageWide(cfg, g, c, p, rule.page, rule.pattern);
          LExtendsTrans(b, c, out, rule.page, rule.pattern);
          LExtendsTrans(a, b, out, rule.page, rule.pattern);
          out
        else
          LExtendsTrans(a, b, c, rule.page, rule.pattern);
          c
      else
        var out := LegacyPageWide(cfg, g, b, p, rule.page, rule.pattern);
        LExtendsTrans(a, b, out, rule.page, rule.pattern);
        out
  }

  /** A found anchor none of whose occurrences matched adds nothing unless
      the page-wide switch is on. */
  lemma FoundAnchorNoMatchIsQuiet(cfg: Config, env: LegacyEnv, ner: Option<PersonFinder>, a: LAcc, doc: Doc, rule: Rule)
    requires !a.raised && rule.page < |doc.pages| && !env.allowPageWide
    requires rule.anchor != [] && doc.pages[rule.page].search(rule.anchor) != []
    requires var p := doc.pages[rule.page];
      !LegacyOccurrences(cfg, PageGate(env, ner, p), a, p, rule.page, p.search(rule.anchor), rule.pattern, rule.anchor).1
    ensures LegacyApplyRule(cfg, env, ner, a, doc, rule) == a
  {
  }

  function LegacyApplyRulesFrom(cfg: Config, env: LegacyEnv, ner: Option<PersonFinder>, a: LAcc, doc: Doc,
                                rules: seq<Rule>): (out: LAcc)
    ensures |a.overlays| <= |out.overlays|
    ensures forall k | 0 <= k < |a.overlays| :: out.overlays[k] == a.overlays[k]
    ensures LegacyConsistent(a) ==> LegacyConsistent(out)
    ensures a.raised ==> out == a
    ensures EntriesFromRules(out.overlays, |a.overlays|, rules, |doc.pages|)
    decreases |rules|
  {
    if rules == [] then a
    else
      var b := LegacyApplyRule(cfg, env, ner, a, doc, rules[0]);
      var out := LegacyApplyRulesFrom(cfg, env, ner, b, doc, rules[1..]);
      forall k | |a.overlays| <= k < |out.overlays|
        ensures out.overlays[k].page < |doc.pages| && FromSomeRule(out.overlays[k], rules)
      {
        if k < |b.overlays| {
          assert out.overlays[k] == b.overlays[k];
          assert rules[0].page == b.overlays[k].page && rules[0].pattern == b.overlays[k].kind;
        } else {
          FromSomeRuleTail(out.overlays[k], rules);
        }
      }
      out
  }

  /** The monolithic `apply_rules(doc, rules, nlp_pipeline)`: every recorded
      box was painted, so the count is the number of entries; each entry
      lies on an existing page and has the page and pattern of some rule. */
  function LegacyApplyRules(cfg: Config, env: LegacyEnv, ner: Option<PersonFinder>, doc: Doc,
                            rules: seq<Rule>): (out: LAcc)
    ensures out.count == |out.overlays|
    ensures forall k | 0 <= k < |out.overlays| :: out.overlays[k].drawn
    ensures EntriesFromRules(out.overlays, 0, rules, |doc.pages|)
  {
    LegacyApplyRulesFrom(cfg, env, ner, LAcc(0, [], false), doc, rules)
  }

  /* ---------------------------------------------------------- processing */

  /** Whether the output was saved, and the knowledge base afterwards. */
  datatype LegacyOutcome = LegacyOutcome(saved: bool, kb: Kb)

  /** The end of the cache-miss path of `process_pdf_final`, once rules were
      learned and applied: an escaping failure leaves the cache alone; otherwise
      the sanitised rules are stored under the fingerprint, and the output is
      saved when a box was painted. */
  function LegacyStore(kb: Kb, fp: Option<string>, rules: seq<Rule>, acc: LAcc): (o: LegacyOutcome)
    requires fp.None? || fp.value !in kb
    requires forall k | 0 <= k < |rules| :: SanitizeAnchor(rules[k].anchor) == rules[k].anchor
    ensures CacheGrows(kb, o.kb, fp)
    ensures o.saved == (!acc.raised && acc.count > 0)
    ensures !acc.raised && fp.Some? ==> o.kb == kb[fp.value := rules]
    ensures acc.raised || fp.None? ==> o.kb == kb
  {
    if acc.raised then LegacyOutcome(false, kb)
    else
      SanitizeRulesFixed(rules);
      var kb' := if fp.Some? then kb[fp.value := SanitizeRules(rules)] else kb;
      LegacyOutcome(acc.count > 0, kb')
  }

  /** `process_pdf_final(input_pdf, output_pdf, nlp_pipeline, knowledge_base)`:
      any escaping failure (an unopenable file, an unpaintable box) ends the
      call with nothing saved and the cache as it was; the output is saved
      only when something was redacted. */
  function LegacyProcess(cfg: Config, labels: LabelFinder, env: LegacyEnv, ner: Option<PersonFinder>,
                         hash: string -> string, kb: Kb, file: Option<Doc>): (o: LegacyOutcome)
    ensures file.None? ==> o == LegacyOutcome(false, kb)
    ensures file.Some? ==> CacheGrows(kb, o.kb, Fingerprint(file.value, hash))
    ensures file.Some? && Fingerprint(file.value, hash).Some? && Fingerprint(file.value, hash).value in kb ==>
      var acc := LegacyApplyRules(cfg, env, ner, file.value, kb[Fingerprint(file.value, hash).value]);
      o == LegacyOutcome(!acc.raised && acc.count > 0, kb)
    ensures file.Some? && !(Fingerprint(file.value, hash).Some? && Fingerprint(file.value, hash).value in kb) ==>
      var rules := Learn(LegacyLearner(labels), file.value, ner, env.rulesOnly);
      var acc := LegacyApplyRules(cfg, env, ner, file.value, rules);
      && (rules == [] ==> o == LegacyOutcome(false, kb))
      && (rules != [] ==> o.saved == (!acc.raised && acc.count > 0))
      && (rules != [] && !acc.raised && Fingerprint(file.value, hash).Some? ==>
            o.kb == kb[Fingerprint(file.value, hash).value := rules])
      && (acc.raised || Fingerprint(file.value, hash).None? ==> o.kb == kb)
  {
    match file
    case None => LegacyOutcome(false, kb)
    case Some(doc) =>
      var fp := Fingerprint(doc, hash);
      if fp.Some? && fp.value in kb then
        var acc := LegacyApplyRules(cfg, env, ner, doc, kb[fp.value]);
        LegacyOutcome(!acc.raised && acc.count > 0, kb)
      else
        var rules := Learn(LegacyLearner(labels), doc, ner, env.rulesOnly);
        if rules == [] then LegacyOutcome(false, kb)
        else LegacyStore(kb, fp, rules, LegacyApplyRules(cfg, env, ner, doc, rules))
  }

  /** Saved exactly when the redactions applied without an escaping failure
      and counted at least one box. */
  lemma LegacySavedIffRedacted(cfg: Config, labels: LabelFinder, env: LegacyEnv, ner: Option<PersonFinder>,
                               hash: string -> string, kb: Kb, doc: Doc)
    ensures var fp := Fingerprint(doc, hash);
      var rules := if fp.Some? && fp.value in kb then kb[fp.value] else Learn(LegacyLearner(labels), doc, ner, env.rulesOnly);
      var acc := LegacyApplyRules(cfg, env, ner, doc, rules);
      LegacyProcess(cfg, labels, env, ner, hash, kb, Some(doc)).saved <==> !acc.raised && |acc.overlays| > 0
  {
    var fp := Fingerprint(doc, hash);
    if !(fp.Some? && fp.value in kb) {
      var rules := Learn(LegacyLearner(labels), doc, ner, env.rulesOnly);
      if rules == [] {
        assert LegacyApplyRules(cfg, env, ner, doc, rules) == LAcc(0, [], false);
      }
    }
  }
}
