/** `Redactor` of `redactor.py`: apply learned rules to a document, blacking
    out the middle digits of every matched number and recording a preview
    entry (first digits `...` last digits) for each attempt.

    The one piece of state a `Redactor` keeps across rules and documents is
    whether the PDF library supports per-character boxes; it is threaded
    through the functions here as a `ProbeState`. */
module Redactor {
  import opened Text
  import opened Basics
  import opened Constants
  import opened DigitRuns
  import opened Geometry
  import opened Document
  import opened Config
  import opened KnowledgeBase

  /* ------------------------------------------------------------ keep counts */

  /** `_compute_keep(pattern_str, token)`: the configured `id` counts for an
      ID-classified token of 4 or more digits, else the `phone` counts for a
      phone-classified token of 6 or more digits, else nothing is kept. */
  function ComputeKeep(cfg: Config, kind: Kind, token: string): (lr: (int, int))
    ensures var d := Digits(token);
      && (IdClassified(kind, d) && |d| >= 4 ==> lr == GetKeep(cfg, "id"))
      && (!(IdClassified(kind, d) && |d| >= 4) && PhoneClassified(kind, d) && |d| >= 6 ==> lr == GetKeep(cfg, "phone"))
      && (!(IdClassified(kind, d) && |d| >= 4) && !(PhoneClassified(kind, d) && |d| >= 6) ==> lr == (0, 0))
  {
    var d := Digits(token);
    if IdClassified(kind, d) && |d| >= 4 then GetKeep(cfg, "id")
    else if PhoneClassified(kind, d) && |d| >= 6 then GetKeep(cfg, "phone")
    else (0, 0)
  }

  /** With the built-in configuration an ID keeps 2 + 2 digits and a phone
      number 4 + 2, and a token too short for either keeps nothing. */
  lemma ComputeKeepDefaults(kind: Kind, token: string)
    ensures var d := Digits(token);
      && (IdClassified(kind, d) && |d| >= 4 ==> ComputeKeep(DefaultConfig, kind, token) == (2, 2))
      && (!IdClassified(kind, d) && PhoneClassified(kind, d) && |d| >= 6 ==> ComputeKeep(DefaultConfig, kind, token) == (4, 2))
      && (|d| < 4 ==> ComputeKeep(DefaultConfig, kind, token) == (0, 0))
  {
    assert GetKeep(DefaultConfig, "id") == (2, 2);
    assert GetKeep(DefaultConfig, "phone") == (4, 2);
  }

  /* -------------------------------------------------------------- preview */

  /** `_visible_token_overlay(token, pattern_str)`: the preview drawn on the
      black box. */
  function VisibleOverlay(token: string, kind: Kind): (o: string)
    ensures Digits(token) == [] ==> o == token
    ensures Digits(token) != [] ==> |o| <= |Digits(token)| + 3
  {
    var d := Digits(token);
    if d == [] then token
    else if IdClassified(kind, d) && |d| >= 4 then d[..2] + "..." + d[|d| - 2..]
    else if PhoneClassified(kind, d) && |d| >= 6 then d[..4] + "..." + d[|d| - 2..]
    else if |d| > 2 then [d[0]] + "..." + [d[|d| - 1]]
    else d
  }

  /** The preview shows exactly the digits the built-in configuration keeps
      visible: the first `left` digits, `...`, the last `right` digits. */
  lemma OverlayShowsKeptDigits(kind: Kind, token: string)
    requires var d := Digits(token);
      (IdClassified(kind, d) && |d| >= 4) || (PhoneClassified(kind, d) && |d| >= 6)
    ensures var d := Digits(token);
      var (l, r) := ComputeKeep(DefaultConfig, kind, token);
      0 <= l && 0 <= r && l + r <= |d|
      && VisibleOverlay(token, kind) == d[..l] + "..." + d[|d| - r..]
  {
    ComputeKeepDefaults(kind, token);
  }

  /** An all-digit ID token keeps its first two and last two digits. */
  lemma OverlayIdDigits(token: string)
    requires AllDigits(token) && |token| >= 4
    ensures VisibleOverlay(token, Id) == token[..2] + "..." + token[|token| - 2..]
  {
    assert Digits(token) == token;
  }

  /** An all-digit phone token that is not ID-shaped keeps its first four and
      last two digits. */
  lemma OverlayPhoneDigits(token: string)
    requires AllDigits(token) && |token| >= 6 && |token| != 9 && |token| != 12
    ensures VisibleOverlay(token, Phone) == token[..4] + "..." + token[|token| - 2..]
  {
    assert Digits(token) == token;
    assert !IdClassified(Phone, token);
  }

  /** `'012345678'` as an ID is previewed `'01...78'`. */
  lemma OverlayIdExample(d: string)
    requires d == "012345678"
    ensures VisibleOverlay(d, Id) == "01...78"
  {
    assert AllDigits(d);
    OverlayIdDigits(d);
    assert d[..2] == "01" && d[|d| - 2..] == "78";
  }

  /** `'0912345678'` as a phone number is previewed `'0912...78'`. */
  lemma OverlayPhoneExample(d: string)
    requires d == "0912345678"
    ensures VisibleOverlay(d, Phone) == "0912...78"
  {
    assert AllDigits(d);
    OverlayPhoneDigits(d);
    assert d[..4] == "0912" && d[|d| - 2..] == "78";
  }

  /* ------------------------------------------------------- middle rectangle */

  /** Whether per-character boxes are known to work: `None` (not probed yet),
      `True` or `False` in `_supports_chars`. */
  datatype ProbeState = Unknown | Supported | Unsupported

  /** The probe only ever moves forward: from unknown to anything, and from
      supported to unsupported. */
  predicate ProbeLe(a: ProbeState, b: ProbeState) {
    a == b || a == Unknown || b == Unsupported
  }

  /** The boxes of the digit characters that meet the token's area. */
  function DigitBoxes(chars: seq<CharBox>, area: Rect): (bs: seq<Rect>)
    ensures |bs| <= |chars|
    ensures forall k | 0 <= k < |bs| :: Intersects(bs[k], area) && !IsEmpty(bs[k])
    decreases |chars|
  {
    if chars == [] then []
    else
      (if Intersects(chars[0].box, area) && IsDigit(chars[0].ch) then [chars[0].box] else [])
      + DigitBoxes(chars[1..], area)
  }

  /** The per-character path: with at least `left + right + 1` digit boxes,
      the union of the boxes `digit_chars[left : len - right]`, if any. */
  function CharPathRect(chars: seq<CharBox>, area: Rect, left: int, right: int): Option<Rect> {
    var dc := DigitBoxes(chars, area);
    if |dc| >= left + right + 1 then
      var mid := PySlice(dc, left, |dc| - right);
      if mid != [] then Some(UnionAll(mid)) else None
    else None
  }

  /** The union of a middle slice of boxes with area is their bounding box:
      it covers each of them, and its side edges belong to them. */
  lemma MiddleBoundingBox(dc: seq<Rect>, left: nat, right: nat)
    requires left + right < |dc|
    requires forall k | 0 <= k < |dc| :: !IsEmpty(dc[k])
    ensures var mid := dc[left..|dc| - right];
      && (forall k | left <= k < |dc| - right :: Encloses(UnionAll(mid), dc[k]))
      && (exists k | left <= k < |dc| - right :: UnionAll(mid).x0 == dc[k].x0)
      && (exists k | left <= k < |dc| - right :: UnionAll(mid).x1 == dc[k].x1)
  {
    var mid := dc[left..|dc| - right];
    assert forall k | 0 <= k < |mid| :: mid[k] == dc[left + k];
    UnionAllBoundingBox(mid);
    var u := UnionAll(mid);
    forall k | left <= k < |dc| - right
      ensures Encloses(u, dc[k])
    {
      assert dc[k] == mid[k - left];
    }
    var i :| 0 <= i < |mid| && u.x0 == mid[i].x0;
    assert u.x0 == dc[left + i].x0;
    var j :| 0 <= j < |mid| && u.x1 == mid[j].x1;
    assert u.x1 == dc[left + j].x1;
  }

  /** With non-negative keep counts and enough digit boxes, the per-character
      rectangle is the bounding box of exactly the middle boxes: it covers
      each of them, and its left and right edges are edges of middle boxes,
      so it does not reach into the kept boxes beyond them. */
  lemma CharPathCoversMiddle(chars: seq<CharBox>, area: Rect, left: int, right: int)
    requires 0 <= left && 0 <= right
    requires |DigitBoxes(chars, area)| >= left + right + 1
    ensures var dc := DigitBoxes(chars, area);
      var mid := dc[left..|dc| - right];
      && CharPathRect(chars, area, left, right) == Some(UnionAll(mid))
      && (forall k | left <= k < |dc| - right :: Encloses(UnionAll(mid), dc[k]))
      && (exists k | left <= k < |dc| - right :: UnionAll(mid).x0 == dc[k].x0)
      && (exists k | left <= k < |dc| - right :: UnionAll(mid).x1 == dc[k].x1)
  {
    var dc := DigitBoxes(chars, area);
    var mid := dc[left..|dc| - right];
    assert PySlice(dc, left, |dc| - right) == mid;
    assert mid != [];
    assert CharPathRect(chars, area, left, right) == Some(UnionAll(mid));
    assert forall k | 0 <= k < |dc| :: !IsEmpty(dc[k]);
    MiddleBoundingBox(dc, left, right);
  }

  /** The proportional split over a token of `n` digits: the area's width is
      divided evenly and the span from digit `left` to digit `n - right` is
      kept, unless it is 1 unit wide or less. */
  function ProportionalRect(area: Rect, n: nat, left: int, right: int): Rect {
    var charW := Width(area) / (if n < 1 then 1 else n) as real;
    var x0 := area.x0 + charW * left as real;
    var x1 := area.x0 + charW * (n - right) as real;
    if x1 > x0 + 1.0 then Rect(x0, area.y0, x1, area.y1) else area
  }

  /** Multiplying by a non-negative factor keeps the order. */
  lemma MulMono(c: real, x: real, y: real)
    requires 0.0 <= c && x <= y
    ensures c * x <= c * y
  {
    assert c * y - c * x == c * (y - x);
  }

  /** With `left + right <= n`, the proportional rectangle lies inside the
      token's box and has its height; when it is not the whole box, its left
      edge sits `left` digit widths (of `n` in the box) from the box's left
      edge and its right edge `n - right` of them. */
  lemma ProportionalInside(area: Rect, n: nat, left: int, right: int)
    requires n >= 1 && 0 <= left && 0 <= right && left + right <= n
    requires area.x0 <= area.x1
    ensures var m := ProportionalRect(area, n, left, right);
      && m.y0 == area.y0 && m.y1 == area.y1
      && area.x0 <= m.x0 <= m.x1 <= area.x1
      && (m != area ==>
            && (m.x0 - area.x0) * n as real == Width(area) * left as real
            && (m.x1 - area.x0) * n as real == Width(area) * (n - right) as real
            && m.x1 > m.x0 + 1.0)
  {
    var w := Width(area);
    assert w == area.x1 - area.x0;
    var cw := w / n as real;
    assert cw * n as real == w;
    MulMono(cw, 0.0, left as real);
    MulMono(cw, left as real, (n - right) as real);
    MulMono(cw, (n - right) as real, n as real);
    assert (cw * left as real) * n as real == (cw * n as real) * left as real;
    assert (cw * (n - right) as real) * n as real == (cw * n as real) * (n - right) as real;
  }

  /** The rectangle to black out and the probe state afterwards. */
  datatype MidResult = MidResult(rect: Rect, probe: ProbeState)

  /** `_get_mid_redact_rect(page, area, token, left, right)`: no digits, the
      whole area; otherwise probe per-character support once, use the
      per-character path while it is supported (a failure switches it off for
      good) and fall back to the proportional split. */
  function MidRect(probe: ProbeState, p: Page, area: Rect, token: string, left: int, right: int): (m: MidResult)
    ensures ProbeLe(probe, m.probe)
    ensures Digits(token) == [] ==> m == MidResult(area, probe)
    ensures Digits(token) != [] ==> m.probe != Unknown
    ensures Digits(token) != [] && m.probe == Supported ==> p.chars.Some?
    ensures probe == Unsupported && Digits(token) != [] ==>
      m == MidResult(ProportionalRect(area, |Digits(token)|, left, right), Unsupported)
    ensures probe != Unsupported && Digits(token) != [] && p.chars.Some?
            && CharPathRect(p.chars.value, area, left, right).Some? ==>
      m == MidResult(CharPathRect(p.chars.value, area, left, right).value, Supported)
    ensures Digits(token) != []
            && !(probe != Unsupported && p.chars.Some? && CharPathRect(p.chars.value, area, left, right).Some?) ==>
      m.rect == ProportionalRect(area, |Digits(token)|, left, right)
  {
    var d := Digits(token);
    if d == [] then MidResult(area, probe)
    else
      var probed := if probe == Unknown then (if p.chars.Some? then Supported else Unsupported) else probe;
      var fallback := ProportionalRect(area, |d|, left, right);
      if probed == Supported then
        match p.chars
        case None => MidResult(fallback, Unsupported)
        case Some(cs) =>
          match CharPathRect(cs, area, left, right)
          case Some(rc) => MidResult(rc, Supported)
          case None => MidResult(fallback, Supported)
      else
        assert probe == Unsupported || p.chars.None?;
        MidResult(fallback, probed)
  }

  /** Asking twice for the same token gives the same rectangle and leaves the
      probe where the first call left it, so the repeated call in the
      sanitised and page-wide paths changes nothing. */
  lemma MidRectStable(probe: ProbeState, p: Page, area: Rect, token: string, left: int, right: int)
    ensures var m := MidRect(probe, p, area, token, left, right);
      MidRect(m.probe, p, area, token, left, right) == m
  {
  }

  /** Once the probe says unsupported, the page's character boxes are never
      consulted again. */
  lemma MidRectIgnoresCharsWhenUnsupported(p: Page, q: Page, area: Rect, token: string, left: int, right: int)
    ensures MidRect(Unsupported, p, area, token, left, right) == MidRect(Unsupported, q, area, token, left, right)
  {
  }

  /* ------------------------------------------------------------ label check */

  /** `_is_label_token_ok(page, lr, area, pattern_str, token)`. */
  function IsLabelTokenOk(p: Page, lr: Rect, area: Rect, kind: Kind, token: string): (ok: bool)
    ensures var labelText := Lower(p.clipText(lr));
      var d := Digits(token);
      ok <==>
        && !ContainsAny(labelText, MoneyWords)
        && Abs((area.y0 + area.y1) / 2.0 - (lr.y0 + lr.y1) / 2.0) <= 14.0
        && area.x0 >= lr.x1 - 2.0
        && (PhoneClassified(kind, d) ==> ContainsAny(labelText, PhoneLabelWords))
        && (IdClassified(kind, d) ==> ContainsAny(labelText, IdLabelWords))
  {
    var labelText := Lower(p.clipText(lr));
    if ContainsAny(labelText, MoneyWords) then false
    else
      var sameLine := Abs((area.y0 + area.y1) / 2.0 - (lr.y0 + lr.y1) / 2.0) <= 14.0;
      var toRight := area.x0 >= lr.x1 - 2.0;
      if !(sameLine && toRight) then false
      else
        var d := Digits(token);
        var allowPhone := ContainsAny(labelText, PhoneLabelWords);
        var allowId := ContainsAny(labelText, IdLabelWords);
        if PhoneClassified(kind, d) && !allowPhone then false
        else if IdClassified(kind, d) && !allowId then false
        else true
  }

  /* --------------------------------------------------------------- drawing */

  /** The three ways of painting a black box, in the order they are tried. */
  datatype DrawStrategy = FillRect | ShapeFill | RedactAnnot

  const DrawOrder: seq<DrawStrategy> := [FillRect, ShapeFill, RedactAnnot]

  predicate Succeeds(p: Page, s: DrawStrategy, rect: Rect) {
    match s
    case FillRect => p.fillOk(rect)
    case ShapeFill => p.shapeOk(rect)
    case RedactAnnot => p.annotOk(rect)
  }

  /** Which strategies were called, and whether one of them succeeded. */
  datatype DrawTrace = DrawTrace(ok: bool, tried: seq<DrawStrategy>)

  /** Try the strategies in order and stop at the first that succeeds. */
  function RunChain(p: Page, rect: Rect, ss: seq<DrawStrategy>): (t: DrawTrace)
    ensures |t.tried| <= |ss| && t.tried == ss[..|t.tried|]
    ensures t.ok <==> exists k | 0 <= k < |ss| :: Succeeds(p, ss[k], rect)
    ensures t.ok ==> t.tried != [] && Succeeds(p, t.tried[|t.tried| - 1], rect)
    ensures forall k | 0 <= k < |t.tried| - (if t.ok then 1 else 0) :: !Succeeds(p, t.tried[k], rect)
    ensures !t.ok ==> t.tried == ss
    decreases |ss|
  {
    if ss == [] then DrawTrace(false, [])
    else if Succeeds(p, ss[0], rect) then DrawTrace(true, [ss[0]])
    else
      var t := RunChain(p, rect, ss[1..]);
      assert forall k | 1 <= k < |ss| :: ss[1..][k - 1] == ss[k];
      DrawTrace(t.ok, [ss[0]] + t.tried)
  }

  /** `_draw_filled_rect(page, rect)`. */
  function DrawFilledRect(p: Page, rect: Rect): (t: DrawTrace)
    ensures t.ok <==> p.fillOk(rect) || p.shapeOk(rect) || p.annotOk(rect)
    ensures 1 <= |t.tried| <= 3 && t.tried == DrawOrder[..|t.tried|]
  {
    var t := RunChain(p, rect, DrawOrder);
    assert Succeeds(p, DrawOrder[0], rect) == p.fillOk(rect);
    assert Succeeds(p, DrawOrder[1], rect) == p.shapeOk(rect);
    assert Succeeds(p, DrawOrder[2], rect) == p.annotOk(rect);
    t
  }

  /* ------------------------------------------------------------- recording */

  /** One entry of `overlays`: page, black box, preview, pattern and token,
      and whether the box was actually painted. */
  datatype OverlayEntry = OverlayEntry(page: nat, rect: Rect, text: string, kind: Kind, token: string, drawn: bool)

  function CountDrawn(es: seq<OverlayEntry>): nat
    decreases |es|
  {
    if es == [] then 0 else CountDrawn(es[..|es| - 1]) + (if es[|es| - 1].drawn then 1 else 0)
  }

  /** The running state of `apply_rules`: the redaction count, the overlay
      list and the probe. */
  datatype Acc = Acc(count: nat, overlays: seq<OverlayEntry>, probe: ProbeState)

  /** Every entry from index `lo` on is for one of `tokens` and shows that
      token's preview. */
  predicate EntriesFor(es: seq<OverlayEntry>, lo: nat, tokens: seq<string>) {
    forall k | lo <= k < |es| :: es[k].token in tokens && es[k].text == VisibleOverlay(es[k].token, es[k].kind)
  }

  /** The count is the number of painted entries. */
  predicate Consistent(a: Acc) {
    a.count == CountDrawn(a.overlays)
  }

  /** `after` continues `before`: the overlays only grow at the end, with
      entries of page `pageNum` and kind `kind`, the probe only moves forward,
      and the count stays the number of painted entries. */
  predicate Extends(before: Acc, after: Acc, pageNum: nat, kind: Kind) {
    && |before.overlays| <= |after.overlays|
    && (forall k | 0 <= k < |before.overlays| :: after.overlays[k] == before.overlays[k])
    && (forall k | |before.overlays| <= k < |after.overlays| ::
          after.overlays[k].page == pageNum && after.overlays[k].kind == kind)
    && ProbeLe(before.probe, after.probe)
    && (Consistent(before) ==> Consistent(after))
  }

  lemma ExtendsTrans(a: Acc, b: Acc, c: Acc, pageNum: nat, kind: Kind)
    requires Extends(a, b, pageNum, kind) && Extends(b, c, pageNum, kind)
    ensures Extends(a, c, pageNum, kind)
  {
  }

  /** Entries for the first token followed by entries for the rest are
      entries for the whole list. */
  lemma EntriesForJoin(a: seq<OverlayEntry>, b: seq<OverlayEntry>, c: seq<OverlayEntry>, tokens: seq<string>)
    requires tokens != [] && |a| <= |b| <= |c|
    requires forall k | |a| <= k < |b| :: c[k] == b[k]
    requires EntriesFor(b, |a|, [tokens[0]]) && EntriesFor(c, |b|, tokens[1..])
    ensures EntriesFor(c, |a|, tokens)
  {
    forall k | |a| <= k < |c|
      ensures c[k].token in tokens && c[k].text == VisibleOverlay(c[k].token, c[k].kind)
    {
      if k < |b| {
        assert c[k] == b[k];
      } else {
        assert c[k].token in tokens[1..];
      }
    }
  }

  /** Entries for `tokens` followed by more entries for `tokens` are entries
      for `tokens`. */
  /** Entries for `ts` followed by entries for `us` are entries for `ts + us`. */
  lemma EntriesForConcat(a: seq<OverlayEntry>, b: seq<OverlayEntry>, c: seq<OverlayEntry>,
                         ts: seq<string>, us: seq<string>)
    requires |a| <= |b| <= |c|
    requires forall k | 0 <= k < |b| :: c[k] == b[k]
    requires EntriesFor(b, |a|, ts) && EntriesFor(c, |b|, us)
    ensures EntriesFor(c, |a|, ts + us)
  {
    forall k | |a| <= k < |c|
      ensures c[k].token in ts + us && c[k].text == VisibleOverlay(c[k].token, c[k].kind)
    {
      if k < |b| {
        assert c[k] == b[k];
      }
    }
  }

  lemma EntriesForAppend(a: seq<OverlayEntry>, b: seq<OverlayEntry>, c: seq<OverlayEntry>, tokens: seq<string>)
    requires |a| <= |b| <= |c|
    requires forall k | 0 <= k < |b| :: c[k] == b[k]
    requires EntriesFor(b, |a|, tokens) && EntriesFor(c, |b|, tokens)
    ensures EntriesFor(c, |a|, tokens)
  {
    forall k | |a| <= k < |c|
      ensures c[k].token in tokens && c[k].text == VisibleOverlay(c[k].token, c[k].kind)
    {
      if k < |b| {
        assert c[k] == b[k];
      }
    }
  }

  /** `_compute_and_record(page, area, token, pattern_str, overlays)`: one
      entry is appended whatever happens, and the count grows by one exactly
      when the box was painted. */
  function Record(cfg: Config, a: Acc, p: Page, pageNum: nat, area: Rect, token: string, kind: Kind): (out: Acc)
    ensures Extends(a, out, pageNum, kind)
    ensures |out.overlays| == |a.overlays| + 1
    ensures var e := out.overlays[|a.overlays|];
      && e.token == token && e.text == VisibleOverlay(token, kind)
      && (e.drawn <==> DrawFilledRect(p, e.rect).ok)
      && out.count == a.count + (if e.drawn then 1 else 0)
    ensures var (left, right) := ComputeKeep(cfg, kind, token);
      var m := MidRect(a.probe, p, area, token, left, right);
      out.overlays[|a.overlays|].rect == m.rect && out.probe == m.probe
  {
    var (left, right) := ComputeKeep(cfg, kind, token);
    var m := MidRect(a.probe, p, area, token, left, right);
    var ok := DrawFilledRect(p, m.rect).ok;
    var e := OverlayEntry(pageNum, m.rect, VisibleOverlay(token, kind), kind, token, ok);
    var out := Acc(a.count + (if ok then 1 else 0), a.overlays + [e], m.probe);
    assert out.overlays[..|a.overlays|] == a.overlays;
    out
  }

  /** The rectangle computed (and dropped) before `_compute_and_record` in the
      sanitised and page-wide paths: only its effect on the probe remains. */
  function Precompute(cfg: Config, a: Acc, p: Page, area: Rect, token: string, kind: Kind): (out: Acc)
    ensures out == a.(probe := out.probe) && ProbeLe(a.probe, out.probe)
  {
    var (left, right) := ComputeKeep(cfg, kind, token);
    a.(probe := MidRect(a.probe, p, area, token, left, right).probe)
  }

  /** Recording after the dropped computation is recording alone. */
  lemma PrecomputeHarmless(cfg: Config, a: Acc, p: Page, pageNum: nat, area: Rect, token: string, kind: Kind)
    ensures Record(cfg, Precompute(cfg, a, p, area, token, kind), p, pageNum, area, token, kind)
         == Record(cfg, a, p, pageNum, area, token, kind)
  {
    var (left, right) := ComputeKeep(cfg, kind, token);
    MidRectStable(a.probe, p, area, token, left, right);
  }

  /** One area of those loops, with or without the dropped computation
      first: one entry for the token, of this page and pattern. */
  lemma RecordStep(cfg: Config, a: Acc, p: Page, pageNum: nat, area: Rect, token: string, kind: Kind,
                   precompute: bool)
    ensures var b := if precompute then Precompute(cfg, a, p, area, token, kind) else a;
      var c := Record(cfg, b, p, pageNum, area, token, kind);
      && Extends(a, c, pageNum, kind)
      && |c.overlays| == |a.overlays| + 1
      && EntriesFor(c.overlays, |a.overlays|, [token])
  {
    var b := if precompute then Precompute(cfg, a, p, area, token, kind) else a;
    var c := Record(cfg, b, p, pageNum, area, token, kind);
    assert Extends(a, b, pageNum, kind);
    ExtendsTrans(a, b, c, pageNum, kind);
  }

  /** Record every area of a token (the page-wide and inside-anchor loops). */
  function RecordAll(cfg: Config, a: Acc, p: Page, pageNum: nat, areas: seq<Rect>, token: string, kind: Kind,
                     precompute: bool): (out: Acc)
    ensures Extends(a, out, pageNum, kind)
    ensures |out.overlays| == |a.overlays| + |areas|
    ensures EntriesFor(out.overlays, |a.overlays|, [token])
    decreases |areas|
  {
    if areas == [] then a
    else
      var b := if precompute then Precompute(cfg, a, p, areas[0], token, kind) else a;
      var c := Record(cfg, b, p, pageNum, areas[0], token, kind);
      RecordStep(cfg, a, p, pageNum, areas[0], token, kind, precompute);
      var out := RecordAll(cfg, c, p, pageNum, areas[1..], token, kind, precompute);
      ExtendsTrans(a, c, out, pageNum, kind);
      EntriesForAppend(a.overlays, c.overlays, out.overlays, [token]);
      out
  }

  /** The dropped computations change nothing about recording a token's
      areas: with or without them the same boxes, previews and probe result. */
  lemma {:induction false} RecordAllPrecomputeHarmless(cfg: Config, a: Acc, p: Page, pageNum: nat, areas: seq<Rect>,
                                                       token: string, kind: Kind)
    ensures RecordAll(cfg, a, p, pageNum, areas, token, kind, true)
         == RecordAll(cfg, a, p, pageNum, areas, token, kind, false)
    decreases |areas|
  {
    if areas != [] {
      PrecomputeHarmless(cfg, a, p, pageNum, areas[0], token, kind);
      var c := Record(cfg, a, p, pageNum, areas[0], token, kind);
      RecordAllPrecomputeHarmless(cfg, c, p, pageNum, areas[1..], token, kind);
    }
  }

  /* -------------------------------------------------------- sanitised path */

  /** The readable label of a sanitised anchor: the placeholders removed and
      the result stripped. */
  function LabelOfAnchor(anchor: string): string {
    Strip(ReplaceAll(ReplaceAll(ReplaceAll(anchor, "<ID>", ""), "<PHONE>", ""), "<NUM>", ""))
  }

  /** The anchor learned from `Số CMND: 012345678` carries a placeholder. */
  lemma CmndAnchorHasPlaceholder()
    ensures HasPlaceholder("Số CMND: <ID>")
  {
    ContainsAt("Số CMND: " + "<ID>", "<ID>", 9);
    assert "Số CMND: <ID>" == "Số CMND: " + "<ID>";
    assert Contains("Số CMND: <ID>", Placeholders[0]);
  }

  /** Removing the placeholders from that anchor leaves `Số CMND: `. */
  lemma CmndAnchorUnplaced()
    ensures ReplaceAll(ReplaceAll(ReplaceAll("Số CMND: <ID>", "<ID>", ""), "<PHONE>", ""), "<NUM>", "") == "Số CMND: "
  {
    var head := "Số CMND: ";
    assert "Số CMND: <ID>" == head + "<ID>";
    ReplaceAllHeadFree(head, "<ID>", "<ID>", "");
    assert ReplaceAll("<ID>", "<ID>", "") == [];
    assert head + [] == head;
    ReplaceAllHeadFree(head, [], "<PHONE>", "");
    ReplaceAllHeadFree(head, [], "<NUM>", "");
  }

  lemma StripCmndHead()
    ensures Strip("Số CMND: ") == "Số CMND:"
  {
    var caption := "Số CMND:";
    assert !IsSpace(caption[0]) && !IsSpace(caption[|caption| - 1]);
    StripTrailingSpace(caption);
    assert caption + " " == "Số CMND: ";
  }

  /** The label of that anchor is `Số CMND:`. */
  lemma CmndAnchorLabel()
    ensures HasPlaceholder("Số CMND: <ID>")
    ensures LabelOfAnchor("Số CMND: <ID>") == "Số CMND:"
  {
    CmndAnchorHasPlaceholder();
    CmndAnchorUnplaced();
    StripCmndHead();
  }

  /** The label's occurrences, else those of its first three words. */
  function LabelRects(p: Page, labelText: string): seq<Rect> {
    var found := p.search(labelText);
    if found != [] then found
    else
      var first := SplitWords(labelText);
      var firstThree := if |first| <= 3 then first else first[..3];
      if firstThree != [] then p.search(JoinSpace(firstThree)) else []
  }

  /** How many of a token's areas a label occurrence accepts. */
  function LabelAccepts(p: Page, lr: Rect, areas: seq<Rect>, token: string, kind: Kind): nat
    decreases |areas|
  {
    if areas == [] then 0
    else (if IsLabelTokenOk(p, lr, areas[0], kind, token) then 1 else 0) + LabelAccepts(p, lr, areas[1..], token, kind)
  }

  /** The accepted areas of every occurrence of every token, for one label. */
  function LabelTokenHits(p: Page, lr: Rect, tokens: seq<string>, kind: Kind): nat
    decreases |tokens|
  {
    if tokens == [] then 0
    else LabelAccepts(p, lr, p.search(tokens[0]), tokens[0], kind) + LabelTokenHits(p, lr, tokens[1..], kind)
  }

  /** The accepted areas of the pattern's matches, over every label. */
  function LabelHits(p: Page, lrs: seq<Rect>, kind: Kind): nat
    decreases |lrs|
  {
    if lrs == [] then 0
    else LabelTokenHits(p, lrs[0], FindIter(p.text, KindRun(kind)), kind) + LabelHits(p, lrs[1..], kind)
  }

  /** One area of one token, for one label rectangle: recorded exactly when
      the label accepts it. */
  function SanitizedAreaStep(cfg: Config, a: Acc, p: Page, pageNum: nat, lr: Rect, area: Rect,
                             token: string, kind: Kind): (out: Acc)
    ensures Extends(a, out, pageNum, kind)
    ensures |out.overlays| <= |a.overlays| + 1
    ensures !IsLabelTokenOk(p, lr, area, kind, token) ==> out == a
    ensures IsLabelTokenOk(p, lr, area, kind, token) ==>
      |out.overlays| == |a.overlays| + 1 && out.overlays[|a.overlays|].token == token
    ensures EntriesFor(out.overlays, |a.overlays|, [token])
  {
    if !IsLabelTokenOk(p, lr, area, kind, token) then a
    else Record(cfg, Precompute(cfg, a, p, area, token, kind), p, pageNum, area, token, kind)
  }

  function SanitizedAreas(cfg: Config, a: Acc, p: Page, pageNum: nat, lr: Rect, areas: seq<Rect>,
                          token: string, kind: Kind): (out: Acc)
    ensures Extends(a, out, pageNum, kind)
    ensures |out.overlays| == |a.overlays| + LabelAccepts(p, lr, areas, token, kind)
    ensures EntriesFor(out.overlays, |a.overlays|, [token])
    decreases |areas|
  {
    if areas == [] then a
    else
      var b := SanitizedAreaStep(cfg, a, p, pageNum, lr, areas[0], token, kind);
      var out := SanitizedAreas(cfg, b, p, pageNum, lr, areas[1..], token, kind);
      ExtendsTrans(a, b, out, pageNum, kind);
      out
  }

  function SanitizedTokens(cfg: Config, a: Acc, p: Page, pageNum: nat, lr: Rect, tokens: seq<string>,
                           kind: Kind): (out: Acc)
    ensures Extends(a, out, pageNum, kind)
    ensures |out.overlays| == |a.overlays| + LabelTokenHits(p, lr, tokens, kind)
    ensures EntriesFor(out.overlays, |a.overlays|, tokens)
    decreases |tokens|
  {
    if tokens == [] then a
    else
      var b := SanitizedAreas(cfg, a, p, pageNum, lr, p.search(tokens[0]), tokens[0], kind);
      var out := SanitizedTokens(cfg, b, p, pageNum, lr, tokens[1..], kind);
      ExtendsTrans(a, b, out, pageNum, kind);
      EntriesForJoin(a.overlays, b.overlays, out.overlays, tokens);
      out
  }

  function SanitizedLabels(cfg: Config, a: Acc, p: Page, pageNum: nat, lrs: seq<Rect>, kind: Kind): (out: Acc)
    ensures Extends(a, out, pageNum, kind)
    ensures |out.overlays| == |a.overlays| + LabelHits(p, lrs, kind)
    ensures EntriesFor(out.overlays, |a.overlays|, FindIter(p.text, KindRun(kind)))
    decreases |lrs|
  {
    if lrs == [] then a
    else
      var b := SanitizedTokens(cfg, a, p, pageNum, lrs[0], FindIter(p.text, KindRun(kind)), kind);
      var out := SanitizedLabels(cfg, b, p, pageNum, lrs[1..], kind);
      ExtendsTrans(a, b, out, pageNum, kind);
      out
  }

  /** `_handle_sanitized_anchor(page, pattern_str, anchor, overlays)`: find the
      label part of the anchor, then record every match of the pattern that
      sits inline right of a label occurrence with matching vocabulary. */
  function HandleSanitized(cfg: Config, a: Acc, p: Page, pageNum: nat, anchor: string, kind: Kind): (out: Acc)
    ensures Extends(a, out, pageNum, kind)
    ensures LabelOfAnchor(anchor) == [] ==> out == a
    ensures LabelOfAnchor(anchor) != [] ==>
      |out.overlays| == |a.overlays| + LabelHits(p, LabelRects(p, LabelOfAnchor(anchor)), kind)
    ensures EntriesFor(out.overlays, |a.overlays|, FindIter(p.text, KindRun(kind)))
  {
    var labelText := LabelOfAnchor(anchor);
    if labelText == [] then a
    else SanitizedLabels(cfg, a, p, pageNum, LabelRects(p, labelText), kind)
  }

  /* ---------------------------------------------------------- anchor path */

  /** The window right of an anchor occurrence where its value is expected. */
  function RightWindow(an: Rect): Rect {
    Rect(an.x1, an.y0 - 5.0, an.x1 + 200.0, an.y1 + 5.0)
  }

  /** The first part of an anchor occurrence: the first match in the window
      to its right, recorded at its first occurrence in that window only. */
  function WindowStep(cfg: Config, a: Acc, p: Page, pageNum: nat, an: Rect, kind: Kind): (out: Acc)
    ensures Extends(a, out, pageNum, kind)
    ensures |out.overlays| <= |a.overlays| + 1
    ensures var found := Search(Strip(p.clipText(RightWindow(an))), KindRun(kind));
      && (found.None? || p.searchIn(found.value, RightWindow(an)) == [] ==> out == a)
      && (found.Some? && p.searchIn(found.value, RightWindow(an)) != [] ==>
            out == Record(cfg, a, p, pageNum, p.searchIn(found.value, RightWindow(an))[0], found.value, kind))
  {
    var window := RightWindow(an);
    match Search(Strip(p.clipText(window)), KindRun(kind))
    case None => a
    case Some(token) =>
      var areas := p.searchIn(token, window);
      if areas == [] then a else Record(cfg, a, p, pageNum, areas[0], token, kind)
  }

  /** The entry the window part adds carries the window match. */
  lemma WindowStepEntries(cfg: Config, a: Acc, p: Page, pageNum: nat, an: Rect, kind: Kind)
    ensures EntriesFor(WindowStep(cfg, a, p, pageNum, an, kind).overlays, |a.overlays|, WindowTokens(p, an, kind))
  {
    var found := Search(Strip(p.clipText(RightWindow(an))), KindRun(kind));
    if found.Some? && p.searchIn(found.value, RightWindow(an)) != [] {
      RecordStep(cfg, a, p, pageNum, p.searchIn(found.value, RightWindow(an))[0], found.value, kind, false);
    }
  }

  /** The second part: a match inside the anchor's own box, recorded at every
      occurrence there. */
  function InsideStep(cfg: Config, a: Acc, p: Page, pageNum: nat, an: Rect, kind: Kind): (out: Acc)
    ensures Extends(a, out, pageNum, kind)
    ensures var found := Search(Strip(p.clipText(an)), KindRun(kind));
      && (found.None? ==> out == a)
      && (found.Some? ==> out == RecordAll(cfg, a, p, pageNum, p.searchIn(found.value, an), found.value, kind, false))
    ensures EntriesFor(out.overlays, |a.overlays|, InsideTokens(p, an, kind))
  {
    match Search(Strip(p.clipText(an)), KindRun(kind))
    case None => a
    case Some(token) => RecordAll(cfg, a, p, pageNum, p.searchIn(token, an), token, kind, false)
  }

  /** The token the window part records: the match in the right window, when
      it occurs there. */
  function WindowTokens(p: Page, an: Rect, kind: Kind): seq<string> {
    var found := Search(Strip(p.clipText(RightWindow(an))), KindRun(kind));
    if found.Some? && p.searchIn(found.value, RightWindow(an)) != [] then [found.value] else []
  }

  /** The token the inside part records: the match inside the anchor's box. */
  function InsideTokens(p: Page, an: Rect, kind: Kind): seq<string> {
    var found := Search(Strip(p.clipText(an)), KindRun(kind));
    if found.Some? then [found.value] else []
  }

  /** The tokens one anchor occurrence records. */
  function OccurrenceTokens(p: Page, an: Rect, kind: Kind): seq<string> {
    WindowTokens(p, an, kind) + InsideTokens(p, an, kind)
  }

  function AnchorTokens(p: Page, ans: seq<Rect>, kind: Kind): seq<string>
    decreases |ans|
  {
    if ans == [] then [] else OccurrenceTokens(p, ans[0], kind) + AnchorTokens(p, ans[1..], kind)
  }

  /** The entries one anchor occurrence adds: one for a match in the right
      window that occurs there, plus one per occurrence inside the anchor of
      the match found there. */
  function OccurrenceHits(p: Page, an: Rect, kind: Kind): nat {
    var inWindow := Search(Strip(p.clipText(RightWindow(an))), KindRun(kind));
    var inside := Search(Strip(p.clipText(an)), KindRun(kind));
    (if inWindow.Some? && p.searchIn(inWindow.value, RightWindow(an)) != [] then 1 else 0)
    + (if inside.Some? then |p.searchIn(inside.value, an)| else 0)
  }

  function AnchorHits(p: Page, ans: seq<Rect>, kind: Kind): nat
    decreases |ans|
  {
    if ans == [] then 0 else OccurrenceHits(p, ans[0], kind) + AnchorHits(p, ans[1..], kind)
  }

  /** `_apply_anchor_rects(...)`: both parts, for every anchor occurrence. */
  function ApplyAnchorRects(cfg: Config, a: Acc, p: Page, pageNum: nat, ans: seq<Rect>, kind: Kind): (out: Acc)
    ensures Extends(a, out, pageNum, kind)
    ensures |out.overlays| == |a.overlays| + AnchorHits(p, ans, kind)
    ensures EntriesFor(out.overlays, |a.overlays|, AnchorTokens(p, ans, kind))
    decreases |ans|
  {
    if ans == [] then a
    else
      var w := WindowStep(cfg, a, p, pageNum, ans[0], kind);
      WindowStepEntries(cfg, a, p, pageNum, ans[0], kind);
      var b := InsideStep(cfg, w, p, pageNum, ans[0], kind);
      var out := ApplyAnchorRects(cfg, b, p, pageNum, ans[1..], kind);
      ExtendsTrans(a, w, b, pageNum, kind);
      ExtendsTrans(a, b, out, pageNum, kind);
      EntriesForConcat(a.overlays, w.overlays, b.overlays, WindowTokens(p, ans[0], kind),
                       InsideTokens(p, ans[0], kind));
      EntriesForConcat(a.overlays, b.overlays, out.overlays, OccurrenceTokens(p, ans[0], kind),
                       AnchorTokens(p, ans[1..], kind));
      out
  }

  /* ---------------------------------------------------------- page-wide path */

  /** The number of occurrences on the page of every token. */
  function Hits(p: Page, tokens: seq<string>): nat
    decreases |tokens|
  {
    if tokens == [] then 0 else |p.search(tokens[0])| + Hits(p, tokens[1..])
  }

  function PageWideTokens(cfg: Config, a: Acc, p: Page, pageNum: nat, tokens: seq<string>, kind: Kind): (out: Acc)
    ensures Extends(a, out, pageNum, kind)
    ensures |out.overlays| == |a.overlays| + Hits(p, tokens)
    ensures EntriesFor(out.overlays, |a.overlays|, tokens)
    decreases |tokens|
  {
    if tokens == [] then a
    else
      var b := RecordAll(cfg, a, p, pageNum, p.search(tokens[0]), tokens[0], kind, true);
      var out := PageWideTokens(cfg, b, p, pageNum, tokens[1..], kind);
      ExtendsTrans(a, b, out, pageNum, kind);
      EntriesForJoin(a.overlays, b.overlays, out.overlays, tokens);
      out
  }

  /** `_page_wide_redact(...)`: every match of the pattern in the page text,
      at every occurrence on the page, one entry each. */
  function PageWide(cfg: Config, a: Acc, p: Page, pageNum: nat, kind: Kind): (out: Acc)
    ensures Extends(a, out, pageNum, kind)
    ensures |out.overlays| == |a.overlays| + Hits(p, FindIter(p.text, KindRun(kind)))
    ensures EntriesFor(out.overlays, |a.overlays|, FindIter(p.text, KindRun(kind)))
  {
    PageWideTokens(cfg, a, p, pageNum, FindIter(p.text, KindRun(kind)), kind)
  }

  /* ------------------------------------------------------------ dispatching */

  /** Whether an anchor carries one of the sanitiser's placeholders. */
  predicate HasPlaceholder(anchor: string) {
    ContainsAny(anchor, Placeholders)
  }

  /** One rule of `apply_rules`. A rule for a page the document lacks does
      nothing; an anchor that is not found goes to the sanitised path when it
      has a placeholder, and otherwise to the page-wide pass only when that is
      enabled (`ALLOW_PAGE_WIDE_FALLBACK=1`). */
  function ApplyRule(cfg: Config, a: Acc, doc: Doc, rule: Rule, allowPageWide: bool): (out: Acc)
    ensures Extends(a, out, rule.page, rule.pattern)
    ensures rule.page >= |doc.pages| ==> out == a
    ensures rule.page < |doc.pages| && rule.anchor != [] && doc.pages[rule.page].search(rule.anchor) == []
            && HasPlaceholder(rule.anchor) ==>
      out == HandleSanitized(cfg, a, doc.pages[rule.page], rule.page, rule.anchor, rule.pattern)
    ensures rule.page < |doc.pages| && doc.pages[rule.page].search(rule.anchor) == []
            && !HasPlaceholder(rule.anchor) && !allowPageWide
            ==> out == a
    ensures rule.page < |doc.pages| && rule.anchor != [] && doc.pages[rule.page].search(rule.anchor) != [] ==>
      out == ApplyAnchorRects(cfg, a, doc.pages[rule.page], rule.page, doc.pages[rule.page].search(rule.anchor),
                              rule.pattern)
    ensures rule.page < |doc.pages|
            && (rule.anchor == [] || (doc.pages[rule.page].search(rule.anchor) == [] && !HasPlaceholder(rule.anchor)))
            ==> out == if allowPageWide then PageWide(cfg, a, doc.pages[rule.page], rule.page, rule.pattern) else a
  {
    if rule.page >= |doc.pages| then a
    else
      var p := doc.pages[rule.page];
      var ans := p.search(rule.anchor);
      if rule.anchor != [] && ans == [] && HasPlaceholder(rule.anchor) then
        HandleSanitized(cfg, a, p, rule.page, rule.anchor, rule.pattern)
      else if rule.anchor != [] && ans != [] then
        ApplyAnchorRects(cfg, a, p, rule.page, ans, rule.pattern)
      else if allowPageWide then PageWide(cfg, a, p, rule.page, rule.pattern)
      else a
  }

  /** `after` continues `before` through any number of rules. */
  predicate ExtendsAny(before: Acc, after: Acc) {
    && |before.overlays| <= |after.overlays|
    && (forall k | 0 <= k < |before.overlays| :: after.overlays[k] == before.overlays[k])
    && ProbeLe(before.probe, after.probe)
    && (Consistent(before) ==> Consistent(after))
  }

  /** Some rule of `rules` names the entry's page and pattern. */
  predicate FromSomeRule(e: OverlayEntry, rules: seq<Rule>) {
    exists i | 0 <= i < |rules| :: rules[i].page == e.page && rules[i].pattern == e.kind
  }

  lemma FromSomeRuleTail(e: OverlayEntry, rules: seq<Rule>)
    requires rules != [] && FromSomeRule(e, rules[1..])
    ensures FromSomeRule(e, rules)
  {
    var i :| 0 <= i < |rules[1..]| && rules[1..][i].page == e.page && rules[1..][i].pattern == e.kind;
    assert rules[i + 1] == rules[1..][i];
  }

  /** Entries from index `lo` on come from some rule, on an existing page. */
  predicate EntriesFromRules(es: seq<OverlayEntry>, lo: nat, rules: seq<Rule>, pageCount: nat) {
    forall k | lo <= k < |es| :: es[k].page < pageCount && FromSomeRule(es[k], rules)
  }

  lemma ExtendsAnyTrans(a: Acc, b: Acc, c: Acc)
    requires ExtendsAny(a, b) && ExtendsAny(b, c)
    ensures ExtendsAny(a, c)
  {
  }

  /** What one rule adds: entries on the rule's page, which exists, with the
      rule's pattern. */
  lemma ApplyRuleAppends(cfg: Config, a: Acc, doc: Doc, rule: Rule, allowPageWide: bool)
    ensures var b := ApplyRule(cfg, a, doc, rule, allowPageWide);
      && ExtendsAny(a, b)
      && forall k | |a.overlays| <= k < |b.overlays| ::
           b.overlays[k].page == rule.page && b.overlays[k].kind == rule.pattern && b.overlays[k].page < |doc.pages|
  {
    var b := ApplyRule(cfg, a, doc, rule, allowPageWide);
    assert Extends(a, b, rule.page, rule.pattern);
    assert rule.page >= |doc.pages| ==> b == a;
  }

  /** Entries appended by the first rule, followed by entries from the
      remaining rules, all come from some rule. */
  lemma EntriesFromRulesStep(b: seq<OverlayEntry>, out: seq<OverlayEntry>, lo: nat, rules: seq<Rule>, pageCount: nat)
    requires rules != [] && lo <= |b| <= |out|
    requires forall k | 0 <= k < |b| :: out[k] == b[k]
    requires forall k | lo <= k < |b| ::
      b[k].page == rules[0].page && b[k].kind == rules[0].pattern && b[k].page < pageCount
    requires EntriesFromRules(out, |b|, rules[1..], pageCount)
    ensures EntriesFromRules(out, lo, rules, pageCount)
  {
    forall k | lo <= k < |out|
      ensures out[k].page < pageCount && FromSomeRule(out[k], rules)
    {
      if k < |b| {
        assert out[k] == b[k];
        assert rules[0].page == out[k].page && rules[0].pattern == out[k].kind;
      } else {
        FromSomeRuleTail(out[k], rules);
      }
    }
  }

  function ApplyRulesFrom(cfg: Config, a: Acc, doc: Doc, rules: seq<Rule>, allowPageWide: bool): (out: Acc)
    ensures ExtendsAny(a, out)
    ensures EntriesFromRules(out.overlays, |a.overlays|, rules, |doc.pages|)
    decreases |rules|
  {
    if rules == [] then a
    else
      var b := ApplyRule(cfg, a, doc, rules[0], allowPageWide);
      var out := ApplyRulesFrom(cfg, b, doc, rules[1..], allowPageWide);
      ApplyRuleAppends(cfg, a, doc, rules[0], allowPageWide);
      EntriesFromRulesStep(b.overlays, out.overlays, |a.overlays|, rules, |doc.pages|);
      ExtendsAnyTrans(a, b, out);
      out
  }

  /** `apply_rules(doc, rules, nlp_pipeline)` on a `Redactor` whose probe is
      `probe`: the number of painted boxes, the overlay entries (one per
      attempt, each on an existing page and with the page and pattern of some
      rule) and the probe afterwards. */
  function ApplyRules(cfg: Config, probe: ProbeState, doc: Doc, rules: seq<Rule>, allowPageWide: bool): (out: Acc)
    ensures out.count == CountDrawn(out.overlays)
    ensures ProbeLe(probe, out.probe)
    ensures EntriesFromRules(out.overlays, 0, rules, |doc.pages|)
  {
    ApplyRulesFrom(cfg, Acc(0, [], probe), doc, rules, allowPageWide)
  }

  /** No rules, nothing painted and nothing recorded. */
  lemma ApplyNoRules(cfg: Config, probe: ProbeState, doc: Doc, allowPageWide: bool)
    ensures ApplyRules(cfg, probe, doc, [], allowPageWide) == Acc(0, [], probe)
  {
  }
  /* ------------------------------------------------------------- coverage */

  /** Some entry of `es` masks `token` as `kind` on page `pageNum`, showing
      the token's preview. */
  predicate HasEntry(es: seq<OverlayEntry>, pageNum: nat, token: string, kind: Kind) {
    exists k | 0 <= k < |es| ::
      es[k].page == pageNum && es[k].kind == kind && es[k].token == token && es[k].text == VisibleOverlay(token, kind)
  }

  /** Entries are never taken back: a longer overlay list with the same
      prefix keeps every entry. */
  lemma HasEntryKept(a: seq<OverlayEntry>, b: seq<OverlayEntry>, pageNum: nat, token: string, kind: Kind)
    requires HasEntry(a, pageNum, token, kind)
    requires |a| <= |b| && forall k | 0 <= k < |a| :: b[k] == a[k]
    ensures HasEntry(b, pageNum, token, kind)
  {
    var k :| 0 <= k < |a| && a[k].page == pageNum && a[k].kind == kind && a[k].token == token
                         && a[k].text == VisibleOverlay(token, kind);
    assert b[k] == a[k];
  }

  /** An area a label occurrence accepts is masked by the sanitised pass over
      the token's areas. */
  lemma {:induction false} SanitizedAreasCovers(cfg: Config, a: Acc, p: Page, pageNum: nat, lr: Rect, areas: seq<Rect>,
                                                token: string, kind: Kind, area: Rect)
    requires area in areas && IsLabelTokenOk(p, lr, area, kind, token)
    ensures HasEntry(SanitizedAreas(cfg, a, p, pageNum, lr, areas, token, kind).overlays, pageNum, token, kind)
    decreases |areas|
  {
    var b := SanitizedAreaStep(cfg, a, p, pageNum, lr, areas[0], token, kind);
    var out := SanitizedAreas(cfg, b, p, pageNum, lr, areas[1..], token, kind);
    assert SanitizedAreas(cfg, a, p, pageNum, lr, areas, token, kind) == out;
    if areas[0] == area {
      var i := |a.overlays|;
      assert b.overlays[i].token == token && b.overlays[i].page == pageNum && b.overlays[i].kind == kind;
      assert b.overlays[i].text == VisibleOverlay(token, kind);
      assert HasEntry(b.overlays, pageNum, token, kind);
      HasEntryKept(b.overlays, out.overlays, pageNum, token, kind);
    } else {
      SanitizedAreasCovers(cfg, b, p, pageNum, lr, areas[1..], token, kind, area);
    }
  }

  /** The same over the tokens: an accepted area of any listed token. */
  lemma {:induction false} SanitizedTokensCovers(cfg: Config, a: Acc, p: Page, pageNum: nat, lr: Rect,
                                                 tokens: seq<string>, kind: Kind, token: string, area: Rect)
    requires token in tokens && area in p.search(token) && IsLabelTokenOk(p, lr, area, kind, token)
    ensures HasEntry(SanitizedTokens(cfg, a, p, pageNum, lr, tokens, kind).overlays, pageNum, token, kind)
    decreases |tokens|
  {
    var b := SanitizedAreas(cfg, a, p, pageNum, lr, p.search(tokens[0]), tokens[0], kind);
    var out := SanitizedTokens(cfg, b, p, pageNum, lr, tokens[1..], kind);
    assert SanitizedTokens(cfg, a, p, pageNum, lr, tokens, kind) == out;
    if tokens[0] == token {
      SanitizedAreasCovers(cfg, a, p, pageNum, lr, p.search(token), token, kind, area);
      HasEntryKept(b.overlays, out.overlays, pageNum, token, kind);
    } else {
      SanitizedTokensCovers(cfg, b, p, pageNum, lr, tokens[1..], kind, token, area);
    }
  }

  /** The same over the label occurrences. */
  lemma {:induction false} SanitizedLabelsCovers(cfg: Config, a: Acc, p: Page, pageNum: nat, lrs: seq<Rect>, kind: Kind,
                                                 lr: Rect, token: string, area: Rect)
    requires lr in lrs && token in FindIter(p.text, KindRun(kind))
    requires area in p.search(token) && IsLabelTokenOk(p, lr, area, kind, token)
    ensures HasEntry(SanitizedLabels(cfg, a, p, pageNum, lrs, kind).overlays, pageNum, token, kind)
    decreases |lrs|
  {
    var b := SanitizedTokens(cfg, a, p, pageNum, lrs[0], FindIter(p.text, KindRun(kind)), kind);
    var out := SanitizedLabels(cfg, b, p, pageNum, lrs[1..], kind);
    assert SanitizedLabels(cfg, a, p, pageNum, lrs, kind) == out;
    if lrs[0] == lr {
      SanitizedTokensCovers(cfg, a, p, pageNum, lr, FindIter(p.text, KindRun(kind)), kind, token, area);
      HasEntryKept(b.overlays, out.overlays, pageNum, token, kind);
    } else {
      SanitizedLabelsCovers(cfg, b, p, pageNum, lrs[1..], kind, lr, token, area);
    }
  }

  /** A rule whose placeholder anchor is not on its page, and a match of its
      pattern at an area right of an occurrence of the anchor's label that
      accepts it: the sanitised path of that rule masks the match. */
  predicate SanitizedAccepts(doc: Doc, rule: Rule, lr: Rect, token: string, area: Rect) {
    && rule.page < |doc.pages|
    && var p := doc.pages[rule.page];
    && rule.anchor != [] && p.search(rule.anchor) == [] && HasPlaceholder(rule.anchor)
    && LabelOfAnchor(rule.anchor) != [] && lr in LabelRects(p, LabelOfAnchor(rule.anchor))
    && token in FindIter(p.text, KindRun(rule.pattern))
    && area in p.search(token) && IsLabelTokenOk(p, lr, area, rule.pattern, token)
  }

  /** Applying the rules from any state masks every match that some rule's
      sanitised path accepts, whatever the other rules do. */
  lemma {:induction false} ApplyRulesFromCovers(cfg: Config, a: Acc, doc: Doc, rules: seq<Rule>, allowPageWide: bool,
                                                rule: Rule, lr: Rect, token: string, area: Rect)
    requires rule in rules && SanitizedAccepts(doc, rule, lr, token, area)
    ensures HasEntry(ApplyRulesFrom(cfg, a, doc, rules, allowPageWide).overlays, rule.page, token, rule.pattern)
    decreases |rules|
  {
    var b := ApplyRule(cfg, a, doc, rules[0], allowPageWide);
    var out := ApplyRulesFrom(cfg, b, doc, rules[1..], allowPageWide);
    assert ApplyRulesFrom(cfg, a, doc, rules, allowPageWide) == out;
    if rules[0] == rule {
      var p := doc.pages[rule.page];
      assert b == HandleSanitized(cfg, a, p, rule.page, rule.anchor, rule.pattern);
      assert b == SanitizedLabels(cfg, a, p, rule.page, LabelRects(p, LabelOfAnchor(rule.anchor)), rule.pattern);
      SanitizedLabelsCovers(cfg, a, p, rule.page, LabelRects(p, LabelOfAnchor(rule.anchor)), rule.pattern,
                            lr, token, area);
      HasEntryKept(b.overlays, out.overlays, rule.page, token, rule.pattern);
    } else {
      ApplyRulesFromCovers(cfg, b, doc, rules[1..], allowPageWide, rule, lr, token, area);
    }
  }

  /** `apply_rules` masks every match that some rule's sanitised path
      accepts. */
  lemma ApplyRulesCovers(cfg: Config, probe: ProbeState, doc: Doc, rules: seq<Rule>, allowPageWide: bool,
                         rule: Rule, lr: Rect, token: string, area: Rect)
    requires rule in rules && SanitizedAccepts(doc, rule, lr, token, area)
    ensures HasEntry(ApplyRules(cfg, probe, doc, rules, allowPageWide).overlays, rule.page, token, rule.pattern)
  {
    ApplyRulesFromCovers(cfg, Acc(0, [], probe), doc, rules, allowPageWide, rule, lr, token, area);
  }

  /** A match one anchor occurrence records: the first match of the pattern
      in the box right of the anchor when it occurs there, or the first match
      inside the anchor's own box when it occurs there. */
  predicate AnchorMatch(p: Page, an: Rect, kind: Kind, token: string) {
    || (Search(Strip(p.clipText(RightWindow(an))), KindRun(kind)) == Some(token)
        && p.searchIn(token, RightWindow(an)) != [])
    || (Search(Strip(p.clipText(an)), KindRun(kind)) == Some(token) && p.searchIn(token, an) != [])
  }

  /** The first entry from `lo` of entries for `[token]`, on this page and
      pattern, is an entry for the token. */
  lemma FirstEntryHas(es: seq<OverlayEntry>, lo: nat, pageNum: nat, token: string, kind: Kind)
    requires lo < |es| && EntriesFor(es, lo, [token]) && es[lo].page == pageNum && es[lo].kind == kind
    ensures HasEntry(es, pageNum, token, kind)
  {
    assert es[lo].token == token;
  }

  /** A window match that occurs in the window is masked by the window part. */
  lemma WindowCovers(cfg: Config, a: Acc, p: Page, pageNum: nat, an: Rect, kind: Kind, token: string)
    requires Search(Strip(p.clipText(RightWindow(an))), KindRun(kind)) == Some(token)
    requires p.searchIn(token, RightWindow(an)) != []
    ensures HasEntry(WindowStep(cfg, a, p, pageNum, an, kind).overlays, pageNum, token, kind)
  {
    RecordStep(cfg, a, p, pageNum, p.searchIn(token, RightWindow(an))[0], token, kind, false);
    var w := WindowStep(cfg, a, p, pageNum, an, kind);
    FirstEntryHas(w.overlays, |a.overlays|, pageNum, token, kind);
  }

  /** A match inside the anchor that occurs there is masked by the inside
      part. */
  lemma InsideCovers(cfg: Config, a: Acc, p: Page, pageNum: nat, an: Rect, kind: Kind, token: string)
    requires Search(Strip(p.clipText(an)), KindRun(kind)) == Some(token) && p.searchIn(token, an) != []
    ensures HasEntry(InsideStep(cfg, a, p, pageNum, an, kind).overlays, pageNum, token, kind)
  {
    var b := InsideStep(cfg, a, p, pageNum, an, kind);
    assert b == RecordAll(cfg, a, p, pageNum, p.searchIn(token, an), token, kind, false);
    FirstEntryHas(b.overlays, |a.overlays|, pageNum, token, kind);
  }

  /** Both parts of one anchor occurrence mask the match it records. */
  lemma OccurrenceCovers(cfg: Config, a: Acc, p: Page, pageNum: nat, an: Rect, kind: Kind, token: string)
    requires AnchorMatch(p, an, kind, token)
    ensures HasEntry(InsideStep(cfg, WindowStep(cfg, a, p, pageNum, an, kind), p, pageNum, an, kind).overlays,
                     pageNum, token, kind)
  {
    var w := WindowStep(cfg, a, p, pageNum, an, kind);
    var b := InsideStep(cfg, w, p, pageNum, an, kind);
    if Search(Strip(p.clipText(RightWindow(an))), KindRun(kind)) == Some(token)
       && p.searchIn(token, RightWindow(an)) != [] {
      WindowCovers(cfg, a, p, pageNum, an, kind, token);
      HasEntryKept(w.overlays, b.overlays, pageNum, token, kind);
    } else {
      InsideCovers(cfg, w, p, pageNum, an, kind, token);
    }
  }

  /** `_apply_anchor_rects` masks the match of every anchor occurrence. */
  lemma {:induction false} AnchorRectsCovers(cfg: Config, a: Acc, p: Page, pageNum: nat, ans: seq<Rect>, kind: Kind,
                                             an: Rect, token: string)
    requires an in ans && AnchorMatch(p, an, kind, token)
    ensures HasEntry(ApplyAnchorRects(cfg, a, p, pageNum, ans, kind).overlays, pageNum, token, kind)
    decreases |ans|
  {
    var w := WindowStep(cfg, a, p, pageNum, ans[0], kind);
    var b := InsideStep(cfg, w, p, pageNum, ans[0], kind);
    var out := ApplyAnchorRects(cfg, b, p, pageNum, ans[1..], kind);
    assert ApplyAnchorRects(cfg, a, p, pageNum, ans, kind) == out;
    if ans[0] == an {
      OccurrenceCovers(cfg, a, p, pageNum, an, kind, token);
      HasEntryKept(b.overlays, out.overlays, pageNum, token, kind);
    } else {
      AnchorRectsCovers(cfg, b, p, pageNum, ans[1..], kind, an, token);
    }
  }

  /** A rule whose anchor is found on its page, and a match that one of the
      anchor's occurrences records. */
  predicate AnchorAccepts(doc: Doc, rule: Rule, an: Rect, token: string) {
    && rule.page < |doc.pages|
    && rule.anchor != [] && an in doc.pages[rule.page].search(rule.anchor)
    && AnchorMatch(doc.pages[rule.page], an, rule.pattern, token)
  }

  /** Applying the rules from any state masks every match that some rule's
      found anchor records, whatever the other rules do. */
  lemma {:induction false} ApplyRulesFromAnchorCovers(cfg: Config, a: Acc, doc: Doc, rules: seq<Rule>,
                                                      allowPageWide: bool, rule: Rule, an: Rect, token: string)
    requires rule in rules && AnchorAccepts(doc, rule, an, token)
    ensures HasEntry(ApplyRulesFrom(cfg, a, doc, rules, allowPageWide).overlays, rule.page, token, rule.pattern)
    decreases |rules|
  {
    var b := ApplyRule(cfg, a, doc, rules[0], allowPageWide);
    var out := ApplyRulesFrom(cfg, b, doc, rules[1..], allowPageWide);
    assert ApplyRulesFrom(cfg, a, doc, rules, allowPageWide) == out;
    if rules[0] == rule {
      var p := doc.pages[rule.page];
      assert b == ApplyAnchorRects(cfg, a, p, rule.page, p.search(rule.anchor), rule.pattern);
      AnchorRectsCovers(cfg, a, p, rule.page, p.search(rule.anchor), rule.pattern, an, token);
      HasEntryKept(b.overlays, out.overlays, rule.page, token, rule.pattern);
    } else {
      ApplyRulesFromAnchorCovers(cfg, b, doc, rules[1..], allowPageWide, rule, an, token);
    }
  }

  /** `apply_rules` masks every match that some rule's found anchor records:
      the path every learned proximity rule takes. */
  lemma ApplyRulesAnchorCovers(cfg: Config, probe: ProbeState, doc: Doc, rules: seq<Rule>, allowPageWide: bool,
                               rule: Rule, an: Rect, token: string)
    requires rule in rules && AnchorAccepts(doc, rule, an, token)
    ensures HasEntry(ApplyRules(cfg, probe, doc, rules, allowPageWide).overlays, rule.page, token, rule.pattern)
  {
    ApplyRulesFromAnchorCovers(cfg, Acc(0, [], probe), doc, rules, allowPageWide, rule, an, token);
  }
}
