/** Character classes and the handful of Python `str` operations the masking
    engine relies on: `isdigit`, `\w`, `strip`, `lower`, `in`, `replace`, `split`,
    `" ".join`, `re.sub(r"\D", "", s)` and slicing with Python's index rules.

    Strings are sequences of Unicode scalar values. Digits are the ASCII digits. */
module Text {

  /* ---------------------------------------------------------------- chars */

  predicate IsDigit(c: char) {
    '0' <= c <= '9'
  }

  /** Python's `str.isspace()`. */
  predicate IsSpace(c: char) {
    || c == ' ' || c == '\t' || c == '\n' || c == '\r'
    || c == '\U{000B}' || c == '\U{000C}'
    || ('\U{001C}' <= c <= '\U{001F}')
    || c == '\U{0085}' || c == '\U{00A0}' || c == '\U{1680}'
    || ('\U{2000}' <= c <= '\U{200A}')
    || c == '\U{2028}' || c == '\U{2029}' || c == '\U{202F}' || c == '\U{205F}'
    || c == '\U{3000}'
  }

  /** The word characters of a `\b` boundary (Python's `\w`, alphanumerics
      and `_`): ASCII letters, digits and `_`; the Latin-1 letters, numerals
      and fractions (`ª ² ³ µ ¹ º ¼ ½ ¾`); and everything from U+00C0 upwards
      (Vietnamese letters with diacritics) except the multiplication and
      division signs, spaces, the combining diacritical marks, the general
      punctuation, currency (`₫`), arrow, mathematical, technical, box,
      shape and dingbat blocks, CJK punctuation and the emoji planes. */
  predicate IsWordChar(c: char) {
    || IsDigit(c)
    || ('a' <= c <= 'z') || ('A' <= c <= 'Z') || c == '_'
    || c == '\U{00AA}' || c == '\U{00B2}' || c == '\U{00B3}' || c == '\U{00B5}'
    || c == '\U{00B9}' || c == '\U{00BA}' || ('\U{00BC}' <= c <= '\U{00BE}')
    || (&& c >= '\U{00C0}'
        && c != '\U{00D7}' && c != '\U{00F7}'
        && !IsSpace(c)
        && !('\U{0300}' <= c <= '\U{036F}')
        && !('\U{2000}' <= c <= '\U{206F}')
        && !('\U{20A0}' <= c <= '\U{20FF}')
        && !('\U{2190}' <= c <= '\U{245F}')
        && !('\U{2500}' <= c <= '\U{2BFF}')
        && !('\U{3000}' <= c <= '\U{303F}')
        && !('\U{1F000}' <= c <= '\U{1FAFF}'))
  }

  /** The dong sign is not a word character, so a number written against it
      ends at a word boundary. */
  lemma DongSignNotWordChar()
    ensures !IsWordChar('\U{20AB}')
    ensures IsWordChar('\U{1EA1}') && IsWordChar('\U{00B2}')
  {
  }

  lemma DigitIsWordChar(c: char)
    requires IsDigit(c)
    ensures IsWordChar(c)
  {
  }

  predicate AllDigits(s: string) {
    forall k | 0 <= k < |s| :: IsDigit(s[k])
  }

  predicate DigitFree(s: string) {
    forall k | 0 <= k < |s| :: !IsDigit(s[k])
  }

  /** Python's `str.lower()` on the Latin letters Vietnamese text uses (ASCII,
      Latin-1, Latin Extended-A, the horned O/U and Latin Extended Additional). */
  function LowerChar(c: char): char {
    var n := c as int;
    if 'A' <= c <= 'Z' then (n + 32) as char
    else if 0xC0 <= n <= 0xDE && n != 0xD7 then (n + 32) as char
    else if ((0x100 <= n <= 0x12F || 0x132 <= n <= 0x137 || 0x14A <= n <= 0x177) && n % 2 == 0)
         || ((0x139 <= n <= 0x148 || 0x179 <= n <= 0x17E) && n % 2 == 1)
    then (n + 1) as char
    else if n == 0x1A0 || n == 0x1AF then (n + 1) as char
    else if (0x1E00 <= n <= 0x1E95 || 0x1EA0 <= n <= 0x1EFF) && n % 2 == 0 then (n + 1) as char
    else c
  }

  function Lower(s: string): (r: string)
    ensures |r| == |s|
    ensures forall k | 0 <= k < |s| :: r[k] == LowerChar(s[k])
  {
    seq(|s|, k requires 0 <= k < |s| => LowerChar(s[k]))
  }

  /* ------------------------------------------------------------ searching */

  /** Python's `needle in hay`. */
  predicate Contains(hay: string, needle: string)
    decreases |hay|
  {
    needle <= hay || (hay != [] && Contains(hay[1..], needle))
  }

  /** `any(k in hay for k in keys)`. */
  predicate ContainsAny(hay: string, keys: seq<string>) {
    exists i | 0 <= i < |keys| :: Contains(hay, keys[i])
  }

  lemma {:induction false} ContainsAt(hay: string, needle: string, i: nat)
    requires i + |needle| <= |hay| && hay[i..i + |needle|] == needle
    ensures Contains(hay, needle)
    decreases i
  {
    if i == 0 {
      assert needle <= hay;
    } else {
      assert hay[1..][i - 1..i - 1 + |needle|] == needle;
      ContainsAt(hay[1..], needle, i - 1);
    }
  }

  lemma {:induction false} ContainsWitness(hay: string, needle: string) returns (i: nat)
    requires Contains(hay, needle)
    ensures i + |needle| <= |hay| && hay[i..i + |needle|] == needle
    decreases |hay|
  {
    if needle <= hay {
      i := 0;
    } else {
      var j := ContainsWitness(hay[1..], needle);
      i := j + 1;
      assert hay[i..i + |needle|] == hay[1..][j..j + |needle|];
    }
  }

  /** Every character of a contained needle occurs in the text. */
  lemma ContainedCharsOccur(hay: string, needle: string)
    ensures Contains(hay, needle) ==> forall c | c in needle :: c in hay
  {
    if Contains(hay, needle) {
      var i := ContainsWitness(hay, needle);
      assert needle == hay[i..i + |needle|];
    }
  }

  /** A text lacking one of the needle's characters does not contain it. */
  lemma MissingCharNotContained(hay: string, needle: string, c: char)
    requires c in needle && c !in hay
    ensures !Contains(hay, needle)
  {
    ContainedCharsOccur(hay, needle);
  }

  /** Substring containment is transitive: a text that contains `longer`
      contains every substring of it. */
  lemma ContainsTransitive(hay: string, longer: string, shorter: string)
    requires Contains(hay, longer) && Contains(longer, shorter)
    ensures Contains(hay, shorter)
  {
    var i := ContainsWitness(hay, longer);
    var j := ContainsWitness(longer, shorter);
    forall k | 0 <= k < |shorter|
      ensures hay[i + j + k] == shorter[k]
    {
      assert hay[i + j + k] == hay[i..i + |longer|][j + k] == longer[j + k];
      assert longer[j..j + |shorter|][k] == longer[j + k];
    }
    assert hay[i + j..i + j + |shorter|] == shorter;
    ContainsAt(hay, shorter, i + j);
  }

  /** Python's `s.replace(pat, rep)`: non-overlapping, left to right. */
  function ReplaceAll(s: string, pat: string, rep: string): (r: string)
    requires pat != []
    decreases |s|
  {
    if |s| < |pat| then s
    else if pat <= s then rep + ReplaceAll(s[|pat|..], pat, rep)
    else [s[0]] + ReplaceAll(s[1..], pat, rep)
  }

  lemma {:induction false} ReplaceAllAbsent(s: string, pat: string, rep: string)
    requires pat != [] && !Contains(s, pat)
    ensures ReplaceAll(s, pat, rep) == s
    decreases |s|
  {
    if |s| >= |pat| {
      assert !(pat <= s);
      assert !Contains(s[1..], pat);
      ReplaceAllAbsent(s[1..], pat, rep);
    }
  }

  /** Text before which the pattern cannot start is copied unchanged. */
  lemma {:induction false} ReplaceAllHeadFree(x: string, y: string, pat: string, rep: string)
    requires pat != [] && pat[0] !in x
    ensures ReplaceAll(x + y, pat, rep) == x + ReplaceAll(y, pat, rep)
    decreases |x|
  {
    if x != [] {
      var s := x + y;
      assert s[0] == x[0] && s[1..] == x[1..] + y;
      ReplaceAllHeadFree(x[1..], y, pat, rep);
      if |s| < |pat| {
        assert ReplaceAll(y, pat, rep) == y;
        assert ReplaceAll(x[1..] + y, pat, rep) == x[1..] + y;
      } else {
        assert !(pat <= s);
      }
      assert x + ReplaceAll(y, pat, rep) == [x[0]] + (x[1..] + ReplaceAll(y, pat, rep));
    } else {
      assert x + y == y;
    }
  }

  /* ------------------------------------------------------------ stripping */

  /** The character sets `strip` removes: whitespace (`strip()`) or an explicit
      list of characters (`strip(chars)`). */
  datatype StripSet = Whitespace | Chars(cs: string)

  predicate Strippable(c: char, cls: StripSet) {
    match cls
    case Whitespace => IsSpace(c)
    case Chars(cs) => c in cs
  }

  function TrimStart(s: string, cls: StripSet): (r: string)
    ensures |r| <= |s| && r == s[|s| - |r|..]
    ensures r != [] ==> !Strippable(r[0], cls)
    ensures forall k | 0 <= k < |s| - |r| :: Strippable(s[k], cls)
    decreases |s|
  {
    if s != [] && Strippable(s[0], cls) then TrimStart(s[1..], cls) else s
  }

  function TrimEnd(s: string, cls: StripSet): (r: string)
    ensures |r| <= |s| && r == s[..|r|]
    ensures r != [] ==> !Strippable(r[|r| - 1], cls)
    ensures forall k | |r| <= k < |s| :: Strippable(s[k], cls)
    decreases |s|
  {
    if s != [] && Strippable(s[|s| - 1], cls) then TrimEnd(s[..|s| - 1], cls) else s
  }

  function StripBy(s: string, cls: StripSet): string {
    TrimEnd(TrimStart(s, cls), cls)
  }

  /** Python's `s.strip()`. */
  function Strip(s: string): string {
    StripBy(s, Whitespace)
  }

  /** Stripping a text that starts and ends with non-whitespace, followed by
      one space, removes just that space. */
  lemma StripTrailingSpace(s: string)
    requires s != [] && !IsSpace(s[0]) && !IsSpace(s[|s| - 1])
    ensures Strip(s + " ") == s
  {
    var t := s + " ";
    assert t[0] == s[0];
    assert TrimStart(t, Whitespace) == t;
    assert t[|t| - 1] == ' ' && t[..|t| - 1] == s;
    assert TrimEnd(t, Whitespace) == TrimEnd(s, Whitespace);
  }

  /** Python's `not s.strip()`. */
  predicate IsBlank(s: string) {
    Strip(s) == []
  }

  /** A string is blank exactly when every character is whitespace. */
  lemma BlankIffAllSpace(s: string)
    ensures IsBlank(s) <==> forall k | 0 <= k < |s| :: IsSpace(s[k])
  {
    var t := TrimStart(s, Whitespace);
    if IsBlank(s) {
      assert t == [];
    }
  }

  /** Some character is not whitespace, scanning from the left. */
  predicate HasText(s: string)
    decreases |s|
  {
    s != [] && (!IsSpace(s[0]) || HasText(s[1..]))
  }

  lemma {:induction false} HasTextIffSomeNonSpace(s: string)
    ensures HasText(s) <==> exists k | 0 <= k < |s| :: !IsSpace(s[k])
    decreases |s|
  {
    if s != [] {
      HasTextIffSomeNonSpace(s[1..]);
      if exists k | 0 <= k < |s| :: !IsSpace(s[k]) {
        var k :| 0 <= k < |s| && !IsSpace(s[k]);
        if k > 0 {
          assert s[1..][k - 1] == s[k];
        }
      }
      if HasText(s[1..]) {
        var k :| 0 <= k < |s[1..]| && !IsSpace(s[1..][k]);
        assert s[k + 1] == s[1..][k];
      }
    }
  }

  /** `s.strip()` is non-empty exactly when some character is not whitespace. */
  lemma HasTextIffNotBlank(s: string)
    ensures HasText(s) <==> !IsBlank(s)
  {
    BlankIffAllSpace(s);
    HasTextIffSomeNonSpace(s);
  }

  /* ------------------------------------------------------- split and join */

  /** Length of the leading run of non-whitespace characters. */
  function WordLen(t: string): (n: nat)
    ensures n <= |t|
    ensures forall k | 0 <= k < n :: !IsSpace(t[k])
    ensures n < |t| ==> IsSpace(t[n])
    decreases |t|
  {
    if t == [] || IsSpace(t[0]) then 0 else 1 + WordLen(t[1..])
  }

  /** Python's `s.split()`: the maximal runs of non-whitespace characters. */
  function SplitWords(s: string): (ws: seq<string>)
    ensures forall k | 0 <= k < |ws| :: ws[k] != []
    decreases |s|
  {
    var t := TrimStart(s, Whitespace);
    if t == [] then []
    else
      var n := WordLen(t);
      [t[..n]] + SplitWords(t[n..])
  }

  /** Python's `" ".join(ws)`. */
  function JoinSpace(ws: seq<string>): string {
    if ws == [] then []
    else if |ws| == 1 then ws[0]
    else ws[0] + " " + JoinSpace(ws[1..])
  }

  /* -------------------------------------------------------------- slicing */

  /** Python's normalisation of a slice bound against a length. */
  function PyIndex(i: int, len: nat): (r: nat)
    ensures r <= len
  {
    if i < 0 then (if len + i < 0 then 0 else len + i)
    else if i > len then len
    else i
  }

  /** Python's `s[a:b]` for any integers `a` and `b`. */
  function PySlice<T>(s: seq<T>, a: int, b: int): (r: seq<T>)
    ensures 0 <= a <= b <= |s| ==> r == s[a..b]
    ensures |r| <= |s|
  {
    var lo, hi := PyIndex(a, |s|), PyIndex(b, |s|);
    if lo < hi then s[lo..hi] else []
  }

  /** Python's `s[:k]` for a non-negative `k`. */
  function Prefix(s: string, k: nat): string {
    if k <= |s| then s[..k] else s
  }

  /** Python's `s[-k:]` for a positive `k`. */
  function Suffix(s: string, k: nat): string {
    if k <= |s| then s[|s| - k..] else s
  }

  /** Python's `xs[-k:]` on a list, for a positive `k`. */
  function LastN<T>(xs: seq<T>, k: nat): (r: seq<T>)
    ensures |r| <= k && |r| <= |xs|
    ensures r == xs[|xs| - |r|..]
    ensures |xs| >= k ==> |r| == k
  {
    if k <= |xs| then xs[|xs| - k..] else xs
  }

  /** `re.sub(r"\D", "", s)`: the digits of `s` in order. */
  function Digits(s: string): (r: string)
    ensures AllDigits(r)
    ensures |r| <= |s|
    ensures AllDigits(s) ==> r == s
  {
    if s == [] then []
    else (if IsDigit(s[0]) then [s[0]] else []) + Digits(s[1..])
  }

  /** A run of `n` asterisks (`"*" * n`). */
  function Stars(n: int): (r: string)
    ensures |r| == (if n < 0 then 0 else n)
    ensures forall k | 0 <= k < |r| :: r[k] == '*'
  {
    if n <= 0 then [] else Stars(n - 1) + "*"
  }

  /** First occurrences only, in order (the model's iteration order for
      Python's `set(names)`). */
  function Dedup<T(==,!new)>(xs: seq<T>): (r: seq<T>)
    ensures forall x :: x in r <==> x in xs
    ensures forall i, j | 0 <= i < j < |r| :: r[i] != r[j]
  {
    DedupFrom(xs, [])
  }

  function DedupFrom<T(==,!new)>(xs: seq<T>, seen: seq<T>): (r: seq<T>)
    requires forall i, j | 0 <= i < j < |seen| :: seen[i] != seen[j]
    ensures forall x :: x in r <==> x in xs || x in seen
    ensures forall i, j | 0 <= i < j < |r| :: r[i] != r[j]
    ensures |seen| <= |r| && r[..|seen|] == seen
    decreases |xs|
  {
    if xs == [] then seen
    else if xs[0] in seen then DedupFrom(xs[1..], seen)
    else DedupFrom(xs[1..], seen + [xs[0]])
  }
}
