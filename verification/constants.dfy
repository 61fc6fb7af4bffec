/** The shapes and vocabularies of `constants.py` and the keyword lists the
    learner and the redactors share.

    `ID_REGEX` is `(\b\d{9}\b|\b\d{12}\b)` and `PHONE_REGEX` is
    `(\b(?:84|0)\d{9}\b)`. A rule stores one of the two pattern strings; the
    model names them by `Kind`. */
module Constants {
  import opened Text

  /** Which of the two pattern strings a rule (or a redaction) carries. */
  datatype Kind = Id | Phone

  /** `ID_REGEX.fullmatch(t)`: nine or twelve digits. */
  predicate IdShape(t: string) {
    AllDigits(t) && (|t| == 9 || |t| == 12)
  }

  /** `PHONE_REGEX.fullmatch(t)`: `0` then nine digits, or `84` then nine digits. */
  predicate PhoneShape(t: string) {
    && AllDigits(t)
    && ((|t| == 10 && t[0] == '0') || (|t| == 11 && t[..2] == "84"))
  }

  /** `pattern_str == ID_REGEX.pattern or ID_REGEX.fullmatch(digits)`. */
  predicate IdClassified(kind: Kind, digits: string) {
    kind == Id || IdShape(digits)
  }

  /** `pattern_str == PHONE_REGEX.pattern or PHONE_REGEX.fullmatch(digits)`. */
  predicate PhoneClassified(kind: Kind, digits: string) {
    kind == Phone || PhoneShape(digits)
  }

  /** `DEFAULT_CUSTOMER_KEYWORDS` (also the fallback list of the monolithic module). */
  const CustomerKeywords: seq<string> :=
    ["khách hàng", "bên mua", "bên b", "bên được bảo hiểm", "người mua"]

  /** The money/loan vocabulary that vetoes an anchor or a label. */
  const MoneyWords: seq<string> :=
    ["số tiền", "khoản vay", "khoản", "giá trị", "thanh toán"]

  /** The label-rule variant of the money vocabulary, with one extra entry. */
  const LabelMoneyWords: seq<string> := MoneyWords + ["số tiền (vnđ)"]

  /** Label words that allow a phone redaction. */
  const PhoneLabelWords: seq<string> := ["điện thoại", "sđt"]

  /** Label words that allow an ID redaction. */
  const IdLabelWords: seq<string> := ["cmnd", "căn cước", "cccd"]

  /** The placeholders a sanitised anchor may contain. */
  const Placeholders: seq<string> := ["<ID>", "<PHONE>", "<NUM>"]

  /** No token fully matches both shapes: the lengths {9, 12} and {10, 11} are disjoint. */
  lemma ShapesDisjoint(t: string)
    ensures !(IdShape(t) && PhoneShape(t))
  {
  }

  /** The extra label entry `số tiền (vnđ)` never changes the verdict: it
      contains `số tiền`, which is already in the list. */
  lemma LabelMoneyWordsSame(s: string)
    ensures ContainsAny(s, LabelMoneyWords) <==> ContainsAny(s, MoneyWords)
  {
    if ContainsAny(s, LabelMoneyWords) {
      var i :| 0 <= i < |LabelMoneyWords| && Contains(s, LabelMoneyWords[i]);
      if i < |MoneyWords| {
        assert MoneyWords[i] == LabelMoneyWords[i];
      } else {
        assert LabelMoneyWords[i][..|MoneyWords[0]|] == MoneyWords[0];
        ContainsAt(LabelMoneyWords[i], MoneyWords[0], 0);
        ContainsTransitive(s, LabelMoneyWords[i], MoneyWords[0]);
      }
    }
    if ContainsAny(s, MoneyWords) {
      var i :| 0 <= i < |MoneyWords| && Contains(s, MoneyWords[i]);
      assert LabelMoneyWords[i] == MoneyWords[i];
    }
  }
}
