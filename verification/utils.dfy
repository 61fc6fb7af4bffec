/** `mask_text` of `utils.py`: mask all but the last `keep_last` characters. */
module Utils {
  import opened Text
  import opened Basics

  /** The `ValueError` raised for a negative `keep_last`. */
  datatype MaskError = NegativeKeep

  /** The default `keep_last` of `mask_text`. */
  const DefaultKeepLast: int := 4

  /** `mask_text(text, keep_last)`; `None` stands for Python's `None`. The
      `None` check comes first, so `None` with a negative count is not an error. */
  function MaskText(text: Option<string>, keepLast: int): (r: Result<string, MaskError>)
    ensures text.None? ==> r == Ok([])
    ensures text.Some? && keepLast < 0 ==> r == Err(NegativeKeep)
    ensures text.Some? && keepLast >= 0 ==> r.Ok? && |r.value| == |text.value|
    ensures text.Some? && keepLast == 0 ==> r == Ok(Stars(|text.value|))
    ensures text.Some? && 0 < keepLast && |text.value| <= keepLast ==> r == Ok(text.value)
    ensures text.Some? && keepLast >= 0 && |text.value| > keepLast ==>
      r.Ok? && |r.value| == |text.value|
      && (forall k | 0 <= k < |text.value| - keepLast :: r.value[k] == '*')
      && (forall k | |text.value| - keepLast <= k < |text.value| :: r.value[k] == text.value[k])
  {
    match text
    case None => Ok([])
    case Some(t) =>
      if keepLast < 0 then Err(NegativeKeep)
      else if keepLast == 0 then Ok(Stars(|t|))
      else if |t| <= keepLast then Ok(t)
      else Ok(Stars(|t| - keepLast) + t[|t| - keepLast..])
  }

  /** Masking twice with the same count changes nothing more: the stars stay
      stars and the kept tail is kept again. */
  lemma {:induction false} MaskTextIdempotent(t: string, keepLast: int)
    requires keepLast >= 0
    ensures MaskText(Some(MaskText(Some(t), keepLast).value), keepLast) == MaskText(Some(t), keepLast)
  {
    var once := MaskText(Some(t), keepLast).value;
    var twice := MaskText(Some(once), keepLast).value;
    assert |twice| == |once| == |t|;
    if keepLast == 0 {
      assert twice == Stars(|once|) == once;
    } else if |t| > keepLast {
      forall k | 0 <= k < |t|
        ensures twice[k] == once[k]
      {
      }
    }
  }

  /** The documented example: `mask_text("1234567890")` is `"******7890"`. */
  lemma MaskTextDocExample()
    ensures MaskText(Some("1234567890"), DefaultKeepLast) == Ok("******7890")
  {
    var r := MaskText(Some("1234567890"), DefaultKeepLast).value;
    assert |r| == 10;
    assert r == "******7890";
  }

  /** The command-line default (keep 4) turns `"123456"` into `"**3456"`. */
  lemma MaskTextCliExample()
    ensures MaskText(Some("123456"), 4) == Ok("**3456")
  {
    var r := MaskText(Some("123456"), 4).value;
    assert |r| == 6;
    assert r == "**3456";
  }
}
