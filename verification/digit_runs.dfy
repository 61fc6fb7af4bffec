/** Python's `re` on the digit-run patterns the engine uses.

    Every pattern in the core has the form `\b<digits>\b`: `ID_REGEX`,
    `PHONE_REGEX` and the three sanitiser patterns `\b\d{9,12}\b`,
    `\b(?:84|0)\d{8,10}\b` and `\b\d{6,}\b`. A `\b` sits between a word and a
    non-word character, and digits are word characters, so such a pattern can
    only start at the first digit of a maximal digit run whose left neighbour is
    a non-word character (or the start of the text), and can only end after the
    run's last digit when its right neighbour is a non-word character (or the
    end). A match is therefore a whole BOUNDED run whose digits the pattern
    accepts. The scanner walks the text left to right, run by run, carrying
    whether the previous character was a word character. */
module DigitRuns {
  import opened Text
  import opened Basics
  import opened Constants

  /** Length of the maximal digit run at the start of `s`. */
  function RunLen(s: string): (n: nat)
    ensures n <= |s|
    ensures forall k | 0 <= k < n :: IsDigit(s[k])
    ensures n < |s| ==> !IsDigit(s[n])
    ensures s != [] && IsDigit(s[0]) ==> n >= 1
    decreases |s|
  {
    if s == [] || !IsDigit(s[0]) then 0 else 1 + RunLen(s[1..])
  }

  /** Whether a maximal run, preceded by a word character iff `prevWord` and
      followed by `rest`, has a `\b` on both sides. */
  predicate Bounded(rest: string, prevWord: bool) {
    !prevWord && (rest == [] || !IsWordChar(rest[0]))
  }

  /** The digit-run patterns of the core. */
  datatype RunPattern =
    | IdRun                // ID_REGEX
    | PhoneRun             // PHONE_REGEX
    | IdPlaceholderRun     // \b\d{9,12}\b
    | PhonePlaceholderRun  // \b(?:84|0)\d{8,10}\b
    | NumPlaceholderRun    // \b\d{6,}\b

  /** Whether the pattern matches a whole bounded digit run `run`. */
  predicate Accepts(p: RunPattern, run: string) {
    match p
    case IdRun => IdShape(run)
    case PhoneRun => PhoneShape(run)
    case IdPlaceholderRun => 9 <= |run| <= 12
    case PhonePlaceholderRun =>
      || (10 <= |run| <= 12 && run[..2] == "84")
      || (9 <= |run| <= 11 && run[0] == '0')
    case NumPlaceholderRun => |run| >= 6
  }

  /** The pattern object `re.compile(pattern_str)` of a rule's kind. */
  function KindRun(kind: Kind): RunPattern {
    match kind
    case Id => IdRun
    case Phone => PhoneRun
  }

  /* --------------------------------------------------------------- finding */

  /** `[m.group(0) for m in pattern.finditer(s)]`, where `prevWord` says whether
      the character before `s` is a word character. */
  function Finds(s: string, p: RunPattern, prevWord: bool): (ms: seq<string>)
    ensures forall k | 0 <= k < |ms| :: ms[k] != [] && AllDigits(ms[k]) && Accepts(p, ms[k])
    decreases |s|
  {
    if s == [] then []
    else if IsDigit(s[0]) then
      var n := RunLen(s);
      (if Bounded(s[n..], prevWord) && Accepts(p, s[..n]) then [s[..n]] else [])
      + Finds(s[n..], p, true)
    else Finds(s[1..], p, IsWordChar(s[0]))
  }

  /** `[m.group(0) for m in re.finditer(pattern, s)]`. */
  function FindIter(s: string, p: RunPattern): seq<string> {
    Finds(s, p, false)
  }

  /** `re.search(pattern, s)`: the leftmost match, if any. */
  function Search(s: string, p: RunPattern): (m: Option<string>)
    ensures m.Some? <==> FindIter(s, p) != []
    ensures m.Some? ==> m.value != [] && AllDigits(m.value) && Accepts(p, m.value)
  {
    var ms := FindIter(s, p);
    if ms == [] then None else Some(ms[0])
  }

  /* ------------------------------------------------------------ substituting */

  /** One `(pattern, replacement)` pair of a substitution. */
  datatype Subst = Subst(pattern: RunPattern, rep: string)

  predicate RepsDigitFree(ps: seq<Subst>) {
    forall k | 0 <= k < |ps| :: DigitFree(ps[k].rep)
  }

  /** The replacement of the first pair whose pattern accepts `run`. */
  function Pick(run: string, ps: seq<Subst>): (r: Option<string>)
    ensures RepsDigitFree(ps) && r.Some? ==> DigitFree(r.value)
    ensures r.Some? <==> exists k | 0 <= k < |ps| :: Accepts(ps[k].pattern, run)
  {
    if ps == [] then None
    else if Accepts(ps[0].pattern, run) then Some(ps[0].rep)
    else
      assert forall k | 1 <= k < |ps| :: ps[1..][k - 1] == ps[k];
      Pick(run, ps[1..])
  }

  /** One left-to-right pass that rewrites every bounded run accepted by some
      pair with that pair's replacement (the first pair that accepts it). With a
      single pair this is `re.sub(pattern, rep, s)`. */
  function SubAll(s: string, ps: seq<Subst>, prevWord: bool): string
    decreases |s|
  {
    if s == [] then []
    else if IsDigit(s[0]) then
      var n := RunLen(s);
      var pick := Pick(s[..n], ps);
      (if Bounded(s[n..], prevWord) && pick.Some? then pick.value else s[..n])
      + SubAll(s[n..], ps, true)
    else [s[0]] + SubAll(s[1..], ps, IsWordChar(s[0]))
  }

  /** `re.sub(pattern, rep, s)`. */
  function ReSub(s: string, p: RunPattern, rep: string): string {
    SubAll(s, [Subst(p, rep)], false)
  }

  /* ------------------------------------------------------------------ lemmas */

  lemma RunLenAppend(a: string, b: string)
    requires AllDigits(a) && (b == [] || !IsDigit(b[0]))
    ensures RunLen(a + b) == |a|
  {
    assert forall k | 0 <= k < |a| :: (a + b)[k] == a[k];
    if b != [] {
      assert (a + b)[|a|] == b[0];
    }
  }

  /** A text that does not start with a digit keeps its first character, and
      the incoming flag does not matter. */
  lemma SubAllNonDigitHead(s: string, ps: seq<Subst>, a: bool, b: bool)
    requires s == [] || !IsDigit(s[0])
    ensures SubAll(s, ps, a) == SubAll(s, ps, b)
    ensures |SubAll(s, ps, a)| == 0 <==> s == []
    ensures s != [] ==> SubAll(s, ps, a)[0] == s[0]
  {
  }

  lemma {:induction false} DigitFreePrefix(x: string, y: string, ps: seq<Subst>, prevWord: bool)
    requires DigitFree(x) && (y == [] || !IsDigit(y[0]))
    ensures SubAll(x + y, ps, prevWord) == x + SubAll(y, ps, true)
    decreases |x|
  {
    if x == [] {
      assert x + y == y;
      SubAllNonDigitHead(y, ps, prevWord, true);
    } else {
      assert (x + y)[0] == x[0] && !IsDigit(x[0]);
      assert (x + y)[1..] == x[1..] + y;
      SubAllNonDigitStep(x + y, ps, prevWord);
      DigitFreePrefix(x[1..], y, ps, IsWordChar(x[0]));
      var r := SubAll(y, ps, true);
      assert [x[0]] + (x[1..] + r) == x + r;
    }
  }

  lemma {:induction false} PickAppend(run: string, ps: seq<Subst>, qs: seq<Subst>)
    ensures Pick(run, ps + qs) == if Pick(run, ps).Some? then Pick(run, ps) else Pick(run, qs)
    decreases |ps|
  {
    if ps != [] {
      assert (ps + qs)[0] == ps[0];
      assert (ps + qs)[1..] == ps[1..] + qs;
      PickAppend(run, ps[1..], qs);
    } else {
      assert ps + qs == qs;
    }
  }

  /** Running a second substitution over the output of a first one is the same
      as one pass with the second pair list appended, provided the first pass
      writes no digits: a replaced run leaves only non-digits behind, and every
      run it keeps keeps its neighbours, so the second pass sees exactly the runs
      the first one passed over. */
  lemma {:induction false} SubAllCompose(s: string, ps: seq<Subst>, qs: seq<Subst>, prevWord: bool)
    requires RepsDigitFree(ps)
    ensures SubAll(SubAll(s, ps, prevWord), qs, prevWord) == SubAll(s, ps + qs, prevWord)
    decreases |s|
  {
    if s == [] {
    } else if IsDigit(s[0]) {
      var n := RunLen(s);
      var run, rest := s[..n], s[n..];
      var y := SubAll(rest, ps, true);
      SubAllNonDigitHead(rest, ps, true, true);
      PickAppend(run, ps, qs);
      SubAllCompose(rest, ps, qs, true);
      var pick := Pick(run, ps);
      if Bounded(rest, prevWord) && pick.Some? {
        assert SubAll(s, ps, prevWord) == pick.value + y;
        DigitFreePrefix(pick.value, y, qs, prevWord);
      } else {
        assert SubAll(s, ps, prevWord) == run + y;
        RunLenAppend(run, y);
        assert (run + y)[..n] == run;
        assert (run + y)[n..] == y;
        assert Bounded(y, prevWord) == Bounded(rest, prevWord);
      }
    } else {
      var y := SubAll(s[1..], ps, IsWordChar(s[0]));
      assert ([s[0]] + y)[0] == s[0];
      assert ([s[0]] + y)[1..] == y;
      SubAllCompose(s[1..], ps, qs, IsWordChar(s[0]));
    }
  }

  /** Two pair lists that pick the same replacement for every digit run
      rewrite every text the same way. */
  ghost predicate SamePicks(ps: seq<Subst>, qs: seq<Subst>) {
    forall run: string | run != [] && AllDigits(run) :: Pick(run, ps) == Pick(run, qs)
  }

  lemma {:induction false} SubAllCongruent(s: string, ps: seq<Subst>, qs: seq<Subst>, prevWord: bool)
    requires SamePicks(ps, qs)
    ensures SubAll(s, ps, prevWord) == SubAll(s, qs, prevWord)
    decreases |s|
  {
    if s == [] {
    } else if IsDigit(s[0]) {
      var n := RunLen(s);
      assert Pick(s[..n], ps) == Pick(s[..n], qs);
      SubAllCongruent(s[n..], ps, qs, true);
    } else {
      SubAllCongruent(s[1..], ps, qs, IsWordChar(s[0]));
    }
  }

  /** A substitution whose replacements hold no digits is idempotent. */
  lemma SubAllIdempotent(s: string, ps: seq<Subst>, prevWord: bool)
    requires RepsDigitFree(ps)
    ensures SubAll(SubAll(s, ps, prevWord), ps, prevWord) == SubAll(s, ps, prevWord)
  {
    SubAllCompose(s, ps, ps, prevWord);
    forall run: string | run != [] && AllDigits(run)
      ensures Pick(run, ps + ps) == Pick(run, ps)
    {
      PickAppend(run, ps, ps);
    }
    SubAllCongruent(s, ps + ps, ps, prevWord);
  }

  /** If some match exists, the substitution changes the text (its replacement
      starts with a non-digit where the text had a digit). */
  lemma {:induction false} FindsChangeText(s: string, p: RunPattern, rep: string, prevWord: bool)
    requires rep != [] && !IsDigit(rep[0])
    ensures Finds(s, p, prevWord) != [] ==> SubAll(s, [Subst(p, rep)], prevWord) != s
    decreases |s|
  {
    var ps := [Subst(p, rep)];
    if s != [] {
      if IsDigit(s[0]) {
        var n := RunLen(s);
        var run, rest := s[..n], s[n..];
        assert Pick(run, ps) == if Accepts(p, run) then Some(rep) else None;
        if Bounded(rest, prevWord) && Accepts(p, run) {
          assert SubAll(s, ps, prevWord)[0] == rep[0];
        } else {
          FindsChangeText(rest, p, rep, true);
          var y := SubAll(rest, ps, true);
          assert SubAll(s, ps, prevWord) == run + y;
          if run + y == s {
            assert (run + y)[n..] == y;
            assert s[n..] == rest;
          }
        }
      } else {
        FindsChangeText(s[1..], p, rep, IsWordChar(s[0]));
        var y := SubAll(s[1..], ps, IsWordChar(s[0]));
        if [s[0]] + y == s {
          assert ([s[0]] + y)[1..] == y;
        }
      }
    }
  }

  /** The run `s[i..j]` is a maximal digit run with a non-word character or an
      end of the text on each side: the places where a `\b<digits>\b`
      expression can match. */
  predicate DelimitedRun(s: string, i: nat, j: nat) {
    && i < j <= |s|
    && (forall k | i <= k < j :: IsDigit(s[k]))
    && (i == 0 || !IsWordChar(s[i - 1]))
    && (j == |s| || !IsWordChar(s[j]))
  }

  /** A delimited accepted run at the very start is the first match. */
  lemma FindsAtStart(s: string, p: RunPattern, prevWord: bool, j: nat)
    requires 0 < j <= |s| && (forall k | 0 <= k < j :: IsDigit(s[k]))
    requires !prevWord && (j < |s| ==> !IsWordChar(s[j]))
    requires Accepts(p, s[..j])
    ensures Finds(s, p, prevWord) == [s[..j]] + Finds(s[j..], p, true)
  {
    assert j < |s| ==> !IsDigit(s[j]);
    assert s[..j] + s[j..] == s;
    RunLenAppend(s[..j], s[j..]);
  }

  /** The scanner misses no match: a delimited run the pattern accepts is
      among the matches found (`prevWord` false at the start of the text). */
  lemma {:induction false} FindsComplete(s: string, p: RunPattern, prevWord: bool, i: nat, j: nat)
    requires i < j <= |s| && (forall k | i <= k < j :: IsDigit(s[k]))
    requires i == 0 ==> !prevWord
    requires i > 0 ==> !IsWordChar(s[i - 1])
    requires j < |s| ==> !IsWordChar(s[j])
    requires Accepts(p, s[i..j])
    ensures s[i..j] in Finds(s, p, prevWord)
    decreases |s|, 1
  {
    if i == 0 {
      assert s[i..j] == s[..j];
      FindsAtStart(s, p, prevWord, j);
    } else if IsDigit(s[0]) {
      FindsCompleteAfterRun(s, p, prevWord, i, j);
    } else {
      FindsSkipChar(s, p, prevWord);
      SliceShift(s, 1, i, j);
      FindsComplete(s[1..], p, IsWordChar(s[0]), i - 1, j - 1);
    }
  }

  /** The step of `FindsComplete` over a leading digit run that ends before `i`. */
  lemma {:induction false} FindsCompleteAfterRun(s: string, p: RunPattern, prevWord: bool, i: nat, j: nat)
    requires 0 < i < j <= |s| && (forall k | i <= k < j :: IsDigit(s[k]))
    requires IsDigit(s[0]) && !IsWordChar(s[i - 1])
    requires j < |s| ==> !IsWordChar(s[j])
    requires Accepts(p, s[i..j])
    ensures s[i..j] in Finds(s, p, prevWord)
    decreases |s|, 0
  {
    var n := RunLen(s);
    assert !IsDigit(s[i - 1]);
    assert n <= i - 1;
    FindsSkipRun(s, p, prevWord);
    SliceShift(s, n, i, j);
    FindsComplete(s[n..], p, true, i - n, j - n);
  }

  /** Past a leading non-digit, the matches are those of the rest of the text. */
  lemma FindsSkipChar(s: string, p: RunPattern, prevWord: bool)
    requires s != [] && !IsDigit(s[0])
    ensures Finds(s, p, prevWord) == Finds(s[1..], p, IsWordChar(s[0]))
  {
  }

  /** Every match after a leading digit run is a match of the whole text. */
  lemma FindsSkipRun(s: string, p: RunPattern, prevWord: bool)
    requires s != [] && IsDigit(s[0])
    ensures forall m | m in Finds(s[RunLen(s)..], p, true) :: m in Finds(s, p, prevWord)
  {
    var n := RunLen(s);
    var head := if Bounded(s[n..], prevWord) && Accepts(p, s[..n]) then [s[..n]] else [];
    assert Finds(s, p, prevWord) == head + Finds(s[n..], p, true);
  }

  /** Dropping `n` characters shifts a later slice by `n`, keeping what it
      holds and what surrounds it. */
  lemma SliceShift(s: string, n: nat, i: nat, j: nat)
    requires n <= i <= j <= |s|
    ensures s[n..][i - n..j - n] == s[i..j]
    ensures forall k | i - n <= k < j - n :: s[n..][k] == s[k + n]
    ensures n < i ==> s[n..][i - n - 1] == s[i - 1]
    ensures j - n < |s[n..]| ==> s[n..][j - n] == s[j]
  {
    assert forall k | 0 <= k < j - i :: s[n..][i - n..j - n][k] == s[i..j][k];
  }

  /** Some character of the text is not whitespace. */
  predicate HasNonSpace(s: string) {
    exists k | 0 <= k < |s| :: !IsSpace(s[k])
  }

  /** Every replacement starts with a character that is not whitespace. */
  predicate RepsStartNonSpace(ps: seq<Subst>) {
    forall k | 0 <= k < |ps| :: ps[k].rep != [] && !IsSpace(ps[k].rep[0])
  }

  /** A replacement picked for a run is one of the pairs' replacements. */
  lemma PickIsRep(run: string, ps: seq<Subst>)
    requires Pick(run, ps).Some?
    ensures exists k | 0 <= k < |ps| :: Pick(run, ps).value == ps[k].rep
    decreases |ps|
  {
    if !Accepts(ps[0].pattern, run) {
      PickIsRep(run, ps[1..]);
      var k :| 0 <= k < |ps[1..]| && Pick(run, ps[1..]).value == ps[1..][k].rep;
      assert ps[k + 1] == ps[1..][k];
    }
  }

  /** Substituting with replacements that start with a non-space character
      never turns a text with a non-space character into a blank one. */
  lemma {:induction false} SubAllKeepsNonSpace(s: string, ps: seq<Subst>, prevWord: bool)
    requires RepsStartNonSpace(ps) && HasNonSpace(s)
    ensures HasNonSpace(SubAll(s, ps, prevWord))
    decreases |s|
  {
    var out := SubAll(s, ps, prevWord);
    if IsDigit(s[0]) {
      var n := RunLen(s);
      var pick := Pick(s[..n], ps);
      var head := if Bounded(s[n..], prevWord) && pick.Some? then pick.value else s[..n];
      assert out == head + SubAll(s[n..], ps, true);
      if pick.Some? {
        PickIsRep(s[..n], ps);
      }
      assert head != [] && !IsSpace(head[0]);
      assert out[0] == head[0];
    } else {
      SubAllNonDigitStep(s, ps, prevWord);
      if !IsSpace(s[0]) {
        assert out[0] == s[0];
      } else {
        var k :| 0 <= k < |s| && !IsSpace(s[k]);
        assert k > 0 && s[1..][k - 1] == s[k];
        SubAllKeepsNonSpace(s[1..], ps, IsWordChar(s[0]));
        var rest := SubAll(s[1..], ps, IsWordChar(s[0]));
        var j :| 0 <= j < |rest| && !IsSpace(rest[j]);
        assert out[j + 1] == rest[j];
      }
    }
  }

  /** A text that starts with a non-digit copies that character. */
  lemma SubAllNonDigitStep(s: string, ps: seq<Subst>, prevWord: bool)
    requires s != [] && !IsDigit(s[0])
    ensures SubAll(s, ps, prevWord) == [s[0]] + SubAll(s[1..], ps, IsWordChar(s[0]))
  {
  }

  /** Text without digits is copied, and the flag after it is whether its last
      character is a word character. */
  lemma {:induction false} SubAllAfterText(x: string, y: string, ps: seq<Subst>, prevWord: bool)
    requires x != [] && DigitFree(x)
    ensures SubAll(x + y, ps, prevWord) == x + SubAll(y, ps, IsWordChar(x[|x| - 1]))
    decreases |x|
  {
    assert (x + y)[0] == x[0] && !IsDigit(x[0]);
    assert (x + y)[1..] == x[1..] + y;
    SubAllNonDigitStep(x + y, ps, prevWord);
    var r := SubAll(y, ps, IsWordChar(x[|x| - 1]));
    if |x| == 1 {
      assert x[1..] + y == y;
      assert [x[0]] + r == x + r;
    } else {
      SubAllAfterText(x[1..], y, ps, IsWordChar(x[0]));
      assert x[1..][|x[1..]| - 1] == x[|x| - 1];
      assert [x[0]] + (x[1..] + r) == x + r;
    }
  }

  /** A digit run followed by text that does not start with a digit: the run
      is rewritten or kept as a whole, then the text is substituted after a
      word character. */
  lemma SubAllRunThen(run: string, rest: string, ps: seq<Subst>, prevWord: bool)
    requires run != [] && AllDigits(run) && (rest == [] || !IsDigit(rest[0]))
    ensures SubAll(run + rest, ps, prevWord)
         == (if Bounded(rest, prevWord) && Pick(run, ps).Some? then Pick(run, ps).value else run)
            + SubAll(rest, ps, true)
  {
    RunLenAppend(run, rest);
    assert (run + rest)[..|run|] == run;
    assert (run + rest)[|run|..] == rest;
  }

  /** A text that is one whole digit run is replaced when nothing word-like
      precedes it and some pair accepts it, and is copied otherwise. */
  lemma SubAllWholeRun(run: string, ps: seq<Subst>, prevWord: bool)
    requires run != [] && AllDigits(run)
    ensures SubAll(run, ps, prevWord)
         == if !prevWord && Pick(run, ps).Some? then Pick(run, ps).value else run
  {
    RunLenAppend(run, []);
    assert run + [] == run;
    assert run[..|run|] == run;
  }

  /** A text that is one whole digit run matches exactly when nothing
      word-like precedes it and the pattern accepts the run. */
  lemma FindsWholeRun(run: string, p: RunPattern, prevWord: bool)
    requires run != [] && AllDigits(run)
    ensures Finds(run, p, prevWord) == if !prevWord && Accepts(p, run) then [run] else []
  {
    RunLenAppend(run, []);
    assert run + [] == run;
    assert run[..|run|] == run;
  }

  /** In running text, `ID_REGEX` hits a delimited digit run exactly when the
      run has 9 or 12 digits: a 10- or 11-digit run is never an ID hit. */
  lemma IdHitIffLength(s: string, i: nat, j: nat)
    requires DelimitedRun(s, i, j)
    ensures s[i..j] in FindIter(s, IdRun) <==> (j - i == 9 || j - i == 12)
  {
    assert forall k | 0 <= k < j - i :: s[i..j][k] == s[i + k];
    if j - i == 9 || j - i == 12 {
      FindsComplete(s, IdRun, false, i, j);
    }
  }
}
