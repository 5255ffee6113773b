/** The single-result converter `number_to_words` (phoneword_generator.py
    lines 38-66) with its nested `find_usable_substrings`.  The Python code
    walks hash sets whose iteration order is unspecified; the model takes
    that order as a parameter `order`, an enumeration of the substring set,
    and every property below holds for every such order. */
module SingleWordify {
  import opened Outcomes
  import opened PyStrings
  import opened Keypad
  import opened Matcher
  import opened Reverse

  /** Lines 44-45: `num_str[i:j + 1]` for every `i` and every `j` from
      `i + min_len - 1` to the last index, written with the end bound
      `e == j + 1`; for `min_len <= 0` Python's slicing clamps and counts
      negative bounds from the end. */
  function UsableSubstrings(s: string, minLen: int): set<string> {
    set i, e | 0 <= i < |s| && i + minLen <= e <= |s| :: PySlice(s, i, e)
  }

  /** The substring set is empty exactly when the string is empty or
      shorter than `min_len`. */
  lemma UsableSubstringsEmpty(s: string, minLen: int)
    ensures UsableSubstrings(s, minLen) == {} <==> |s| == 0 || minLen > |s|
  {
    if |s| > 0 && minLen <= |s| {
      assert PySlice(s, 0, |s|) in UsableSubstrings(s, minLen);
    }
  }

  /** Every collected substring occurs in the string and has at least
      `min_len` characters. */
  lemma UsableSubstringsSound(s: string, minLen: int, x: string)
    requires x in UsableSubstrings(s, minLen)
    ensures minLen <= |x| && IsSubstring(x, s)
  {
    var i, e :| 0 <= i < |s| && i + minLen <= e <= |s| && x == PySlice(s, i, e);
    if minLen >= 1 {
      assert x == s[i..e];
    }
  }

  /** Every substring with at least `min_len` characters is collected. */
  lemma UsableSubstringsComplete(s: string, minLen: int, i: int, j: int)
    requires 0 <= i < j <= |s| && i + minLen <= j
    ensures s[i..j] in UsableSubstrings(s, minLen)
  {
    assert PySlice(s, i, j) in UsableSubstrings(s, minLen);
  }

  /** `order` lists the members of `set`, each once: one iteration order of
      the set. */
  ghost predicate Enumerates(order: seq<string>, set_: set<string>) {
    && (forall x :: x in order <==> x in set_)
    && forall a, b :: 0 <= a < b < |order| ==> order[a] != order[b]
  }

  /** Lines 47-51 as written.  The `return` sits inside the `for`, so only
      the first element in iteration order is examined: if it holds `0` or
      `1` it is dropped, every other substring stays, including those that
      hold `0` or `1`.  The `subs.union(...)` of line 50 is discarded and
      adds nothing.  With no substrings the loop never runs and the function
      falls off its end: `None`.  The surviving set is returned as its
      iteration order. */
  function FindUsableSubstrings(s: string, minLen: int, order: seq<string>): (r: Option<seq<string>>)
    requires Enumerates(order, UsableSubstrings(s, minLen))
    ensures r.None? <==> |s| == 0 || minLen > |s|
    ensures r.Some? ==> forall x :: x in r.value <==>
      x in UsableSubstrings(s, minLen) && !(x == order[0] && ('0' in x || '1' in x))
    ensures r.Some? ==> forall a, b :: 0 <= a < b < |r.value| ==> r.value[a] != r.value[b]
  {
    UsableSubstringsEmpty(s, minLen);
    assert |order| > 0 ==> order[0] in UsableSubstrings(s, minLen);
    if |order| == 0 then None
    else if '1' in order[0] || '0' in order[0] then
      assert forall x :: x in order[1..] <==> x in order && x != order[0] by {
        forall x | x in order
          ensures x in order[1..] <==> x != order[0]
        {
          var a :| 0 <= a < |order| && order[a] == x;
          if a > 0 { assert order[1..][a - 1] == x; }
        }
      }
      Some(order[1..])
    else Some(order)
  }

  /** Some upper-cased dictionary word matches the digit string `sub`. */
  predicate HasMatch(sub: string, vocab: seq<string>) {
    AllDigits(sub) && MatchingWords(KeypadPattern(sub), vocab) != {}
  }

  /** `out` is `s` with every occurrence of `sub` replaced by the first
      dictionary word, in iteration order, that matches `sub`. */
  ghost predicate SubstitutedBy(s: string, out: string, sub: string, vocab: seq<string>) {
    AllDigits(sub) &&
    exists i :: FirstMatchAt(KeypadPattern(sub), vocab, i) && out == ReplaceAll(s, sub, Upper(vocab[i]))
  }

  /** `pops[k]` is the first substring popped that has a matching word. */
  predicate FirstHit(pops: seq<string>, vocab: seq<string>, k: int) {
    0 <= k < |pops| && HasMatch(pops[k], vocab) && forall j :: 0 <= j < k ==> !HasMatch(pops[j], vocab)
  }

  /** Some popped substring holds a non-digit and no substring popped
      before it has a matching word: the loop reaches it and
      `mapping[ch]` on line 58 raises `KeyError`. */
  predicate RaisesFirst(pops: seq<string>, vocab: seq<string>) {
    exists k :: 0 <= k < |pops| && !AllDigits(pops[k]) && forall j :: 0 <= j < k ==> !HasMatch(pops[j], vocab)
  }

  /** Replacing a digit substring by a word that spells it keeps the whole
      string a spelling of the digits. */
  lemma {:induction false} ReplaceAllSpells(s: string, t: string, w: string)
    requires AllDigits(s) && AllDigits(t) && Matches(KeypadPattern(t), w)
    ensures Matches(KeypadPattern(s), ReplaceAll(s, t, w))
    decreases |s|
  {
    if |t| == 0 {
      ReplaceAllSelf(s, t);
      DigitsMatchThemselves(s);
    } else if t <= s {
      var rest := s[|t|..];
      assert s == t + rest;
      ReplaceAllSpells(rest, t, w);
      KeypadPatternAppend(t, rest);
      MatchesAppend(KeypadPattern(t), KeypadPattern(rest), w, ReplaceAll(rest, t, w));
    } else if |s| > 0 {
      var rest := s[1..];
      assert s == [s[0]] + rest;
      ReplaceAllSpells(rest, t, w);
      DigitsMatchThemselves([s[0]]);
      KeypadPatternAppend([s[0]], rest);
      MatchesAppend(KeypadPattern([s[0]]), KeypadPattern(rest), [s[0]], ReplaceAll(rest, t, w));
    }
  }

  /** The `while` loop of lines 56-64 over the substrings in pop order: pop,
      build the pattern (raising `KeyError` on a non-digit), ask for one
      matching word, and on the first hit replace every occurrence of the
      substring and stop.  Without a hit the string comes back unchanged. */
  function Substitute(s: string, pops: seq<string>, vocab: seq<string>): (r: Result<string>)
    ensures r.Success? ==>
      || ((forall k :: 0 <= k < |pops| ==> !HasMatch(pops[k], vocab)) && r.value == s)
      || exists k :: FirstHit(pops, vocab, k) && SubstitutedBy(s, r.value, pops[k], vocab)
    ensures r.Success? ==> |r.value| == |s|
    ensures r.Success? && AllDigits(s) ==> Matches(KeypadPattern(s), r.value)
    ensures (forall k :: 0 <= k < |pops| ==> AllDigits(pops[k])) ==> r.Success?
    ensures r.Failure? <==> RaisesFirst(pops, vocab)
    ensures r.Failure? ==>
      r.error.KeyError? && r.error.key !in Mapping && exists k :: 0 <= k < |pops| && r.error.key in pops[k]
  {
    if |pops| == 0 then Success(s)
    else
      var sub := pops[0];
      match BuildPattern(sub)
      case Failure(e) =>
        assert RaisesFirst(pops, vocab) by {
          assert !AllDigits(pops[0]);
        }
        Failure(e)
      case Success(p) =>
        match FindValidWord(p, vocab, false)
        case OneWord(w) =>
          assert FirstHit(pops, vocab, 0);
          assert AllDigits(s) ==> Matches(KeypadPattern(s), ReplaceAll(s, sub, w)) by {
            if AllDigits(s) {
              assert Matches(p, w);
              ReplaceAllSpells(s, sub, w);
            }
          }
          Success(ReplaceAll(s, sub, w))
        case WordSet(_) =>
          var r := Substitute(s, pops[1..], vocab);
          assert !HasMatch(pops[0], vocab);
          MissShift(s, pops, vocab, r);
          FailShift(pops, vocab);
          r
  }

  /** A first substring that is all digits and has no match neither raises
      nor stops the loop: the rest decides whether `KeyError` is raised. */
  lemma FailShift(pops: seq<string>, vocab: seq<string>)
    requires |pops| > 0 && AllDigits(pops[0]) && !HasMatch(pops[0], vocab)
    ensures RaisesFirst(pops, vocab) <==> RaisesFirst(pops[1..], vocab)
  {
    if RaisesFirst(pops, vocab) {
      var k :| 0 <= k < |pops| && !AllDigits(pops[k]) && forall j :: 0 <= j < k ==> !HasMatch(pops[j], vocab);
      assert k > 0 && pops[1..][k - 1] == pops[k];
      assert forall j :: 0 <= j < k - 1 ==> pops[1..][j] == pops[j + 1];
    }
    if RaisesFirst(pops[1..], vocab) {
      var k :| 0 <= k < |pops[1..]| && !AllDigits(pops[1..][k]) && forall j :: 0 <= j < k ==> !HasMatch(pops[1..][j], vocab);
      assert pops[k + 1] == pops[1..][k];
      assert forall j :: 0 < j < k + 1 ==> pops[j] == pops[1..][j - 1];
    }
  }

  /** A first substring without a match passes the outcome of the rest of
      the loop through: a hit among the rest is the first hit overall, and a
      failing substring of the rest is a substring of the whole. */
  lemma MissShift(s: string, pops: seq<string>, vocab: seq<string>, r: Result<string>)
    requires |pops| > 0 && !HasMatch(pops[0], vocab)
    requires r.Success? ==>
      || ((forall k :: 0 <= k < |pops[1..]| ==> !HasMatch(pops[1..][k], vocab)) && r.value == s)
      || exists k :: FirstHit(pops[1..], vocab, k) && SubstitutedBy(s, r.value, pops[1..][k], vocab)
    requires r.Failure? && r.error.KeyError? ==> exists k :: 0 <= k < |pops[1..]| && r.error.key in pops[1..][k]
    ensures r.Success? ==>
      || ((forall k :: 0 <= k < |pops| ==> !HasMatch(pops[k], vocab)) && r.value == s)
      || exists k :: FirstHit(pops, vocab, k) && SubstitutedBy(s, r.value, pops[k], vocab)
    ensures r.Failure? && r.error.KeyError? ==> exists k :: 0 <= k < |pops| && r.error.key in pops[k]
  {
    if r.Success? && exists k :: FirstHit(pops[1..], vocab, k) && SubstitutedBy(s, r.value, pops[1..][k], vocab) {
      var k :| FirstHit(pops[1..], vocab, k) && SubstitutedBy(s, r.value, pops[1..][k], vocab);
      HitShift(pops, vocab, k);
    } else if r.Success? {
      NoHitShift(pops, vocab);
    } else if r.Failure? && r.error.KeyError? {
      var k :| 0 <= k < |pops[1..]| && r.error.key in pops[1..][k];
      assert pops[k + 1] == pops[1..][k];
    }
  }

  /** The first hit among the rest is the first hit overall. */
  lemma HitShift(pops: seq<string>, vocab: seq<string>, k: int)
    requires |pops| > 0 && !HasMatch(pops[0], vocab) && FirstHit(pops[1..], vocab, k)
    ensures FirstHit(pops, vocab, k + 1) && pops[k + 1] == pops[1..][k]
  {
    assert forall j :: 0 < j <= k ==> pops[j] == pops[1..][j - 1];
  }

  /** No hit among the rest means no hit at all. */
  lemma NoHitShift(pops: seq<string>, vocab: seq<string>)
    requires |pops| > 0 && !HasMatch(pops[0], vocab)
    requires forall k :: 0 <= k < |pops[1..]| ==> !HasMatch(pops[1..][k], vocab)
    ensures forall k :: 0 <= k < |pops| ==> !HasMatch(pops[k], vocab)
  {
    forall k | 0 < k < |pops|
      ensures !HasMatch(pops[k], vocab)
    {
      assert pops[k] == pops[1..][k - 1];
    }
  }

  /** `number_to_words` as written.  It raises `TypeError` exactly when the
      hyphen-stripped number is empty or shorter than `min_word_len`
      (`len(None)` on line 56).  Otherwise the result keeps the stripped
      length; it is the stripped number when no popped substring has a
      matching word, and otherwise the stripped number with every occurrence
      of the first such substring replaced by its first matching word.  For
      a digit string the result spells the digits. */
  function NumberToWords(num: string, vocab: seq<string>, minLen: int, order: seq<string>): (r: Result<string>)
    requires Enumerates(order, UsableSubstrings(StripHyphens(num), minLen))
    ensures r == Failure(TypeError) <==> |StripHyphens(num)| == 0 || minLen > |StripHyphens(num)|
    ensures r.Success? ==> |r.value| == |StripHyphens(num)|
    ensures r.Success? && AllDigits(StripHyphens(num)) ==>
      Matches(KeypadPattern(StripHyphens(num)), r.value)
    ensures AllDigits(StripHyphens(num)) && 0 < |StripHyphens(num)| && minLen <= |StripHyphens(num)| ==>
      r.Success?
    ensures r.Failure? ==> r.error.TypeError? || r.error.KeyError?
    ensures var f := FindUsableSubstrings(StripHyphens(num), minLen, order);
      f.Some? ==> (r.Failure? <==> RaisesFirst(f.value, vocab))
    ensures r.Failure? && r.error.KeyError? ==>
      r.error.key in StripHyphens(num) && r.error.key !in Mapping
    ensures r.Success? && (forall x :: x in UsableSubstrings(StripHyphens(num), minLen) ==> !HasMatch(x, vocab)) ==>
      r.value == StripHyphens(num)
    ensures r.Success? && r.value != StripHyphens(num) ==>
      exists sub :: sub in UsableSubstrings(StripHyphens(num), minLen) && SubstitutedBy(StripHyphens(num), r.value, sub, vocab)
    ensures r.Success? && (exists x :: x in UsableSubstrings(StripHyphens(num), minLen) && '0' !in x && '1' !in x && HasMatch(x, vocab)) ==>
      exists sub :: sub in UsableSubstrings(StripHyphens(num), minLen) && HasMatch(sub, vocab)
        && SubstitutedBy(StripHyphens(num), r.value, sub, vocab)
  {
    var s := StripHyphens(num);
    UsableSubstringsEmpty(s, minLen);
    match FindUsableSubstrings(s, minLen, order)
    case None => Failure(TypeError)
    case Some(pops) =>
      var r := Substitute(s, pops, vocab);
      assert forall k :: 0 <= k < |pops| ==> pops[k] in UsableSubstrings(s, minLen);
      assert forall x :: x in UsableSubstrings(s, minLen) && '0' !in x && '1' !in x ==> x in pops;
      SubstringsOfDigits(s, minLen, pops);
      assert r.Failure? ==> r.error.key in s by {
        if r.Failure? {
          var k :| 0 <= k < |pops| && r.error.key in pops[k];
          UsableSubstringsSound(s, minLen, pops[k]);
          SubstringChars(pops[k], s, r.error.key);
        }
      }
      r
  }

  /** A character of a substring is a character of the string. */
  lemma SubstringChars(x: string, s: string, c: char)
    requires IsSubstring(x, s) && c in x
    ensures c in s
  {
    var i :| 0 <= i <= |s| && x <= s[i..];
    var k :| 0 <= k < |x| && x[k] == c;
    assert s[i..][k] == c;
  }

  /** Substrings of a digit string are digit strings. */
  lemma SubstringsOfDigits(s: string, minLen: int, pops: seq<string>)
    requires forall k :: 0 <= k < |pops| ==> pops[k] in UsableSubstrings(s, minLen)
    ensures AllDigits(s) ==> forall k :: 0 <= k < |pops| ==> AllDigits(pops[k])
  {
    if AllDigits(s) {
      forall k, m | 0 <= k < |pops| && 0 <= m < |pops[k]|
        ensures pops[k][m] in Mapping
      {
        UsableSubstringsSound(s, minLen, pops[k]);
        SubstringChars(pops[k], s, pops[k][m]);
      }
    }
  }

  /** Round trip: for a digit number, mapping the converter's output back
      gives the digits, formatted. */
  lemma NumberToWordsRoundTrip(num: string, vocab: seq<string>, minLen: int, order: seq<string>)
    requires Enumerates(order, UsableSubstrings(StripHyphens(num), minLen))
    requires AllDigits(StripHyphens(num))
    requires NumberToWords(num, vocab, minLen, order).Success?
    ensures WordsToNumber(NumberToWords(num, vocab, minLen, order).value) == Success(Format(StripHyphens(num)))
  {
    var s := StripHyphens(num);
    WordsToNumberOfSpelling(s, NumberToWords(num, vocab, minLen, order).value);
  }

  /** Lines 47-51 with the `return` moved after the loop, as the docstrings
      intend: every substring holding `0` or `1` is dropped, and the rest is
      returned even when it is empty. */
  function DropZeroOne(order: seq<string>): (r: seq<string>)
    ensures forall x :: x in r <==> x in order && '0' !in x && '1' !in x
  {
    if |order| == 0 then []
    else
      (if '0' in order[0] || '1' in order[0] then [] else [order[0]]) + DropZeroOne(order[1..])
  }

  /** `number_to_words` with the collector corrected: it never raises
      `TypeError`; a number that is empty or shorter than `min_word_len`
      comes back unchanged; a digit number always converts, to a spelling of
      itself; and only substrings free of `0` and `1` are ever substituted. */
  function NumberToWordsIntended(num: string, vocab: seq<string>, minLen: int, order: seq<string>): (r: Result<string>)
    requires Enumerates(order, UsableSubstrings(StripHyphens(num), minLen))
    ensures r.Failure? ==> r.error.KeyError?
    ensures AllDigits(StripHyphens(num)) ==> r.Success?
    ensures |StripHyphens(num)| == 0 || minLen > |StripHyphens(num)| ==> r == Success(StripHyphens(num))
    ensures r.Success? ==> |r.value| == |StripHyphens(num)|
    ensures r.Success? && AllDigits(StripHyphens(num)) ==>
      Matches(KeypadPattern(StripHyphens(num)), r.value)
    ensures r.Success? && r.value != StripHyphens(num) ==>
      exists sub :: sub in UsableSubstrings(StripHyphens(num), minLen) && '0' !in sub && '1' !in sub
        && SubstitutedBy(StripHyphens(num), r.value, sub, vocab)
    ensures r.Success? && (exists x :: x in UsableSubstrings(StripHyphens(num), minLen) && '0' !in x && '1' !in x && HasMatch(x, vocab)) ==>
      exists sub :: sub in UsableSubstrings(StripHyphens(num), minLen) && '0' !in sub && '1' !in sub && HasMatch(sub, vocab)
        && SubstitutedBy(StripHyphens(num), r.value, sub, vocab)
  {
    var s := StripHyphens(num);
    CorrectedShape(s, minLen, order, vocab);
    CorrectedHit(s, minLen, order, vocab);
    Substitute(s, DropZeroOne(order), vocab)
  }

  /** With the corrected collector, the loop raises only `KeyError`, always
      converts a digit string to a spelling of it, leaves a string without
      usable substrings alone, and only ever substitutes a usable substring
      free of `0` and `1`. */
  lemma CorrectedShape(s: string, minLen: int, order: seq<string>, vocab: seq<string>)
    requires Enumerates(order, UsableSubstrings(s, minLen))
    ensures var r := Substitute(s, DropZeroOne(order), vocab);
      && (r.Failure? ==> r.error.KeyError?)
      && (AllDigits(s) ==> r.Success?)
      && (|s| == 0 || minLen > |s| ==> r == Success(s))
      && (r.Success? ==> |r.value| == |s|)
      && (r.Success? && AllDigits(s) ==> Matches(KeypadPattern(s), r.value))
      && (r.Success? && r.value != s ==>
            exists sub :: sub in UsableSubstrings(s, minLen) && '0' !in sub && '1' !in sub
              && SubstitutedBy(s, r.value, sub, vocab))
  {
    var pops := DropZeroOne(order);
    UsableSubstringsEmpty(s, minLen);
    assert forall k :: 0 <= k < |pops| ==> pops[k] in UsableSubstrings(s, minLen);
    assert forall x :: x in UsableSubstrings(s, minLen) && '0' !in x && '1' !in x ==> x in pops;
    SubstringsOfDigits(s, minLen, pops);
  }

  /** With the corrected collector, a usable substring free of `0` and `1`
      that has a matching word guarantees a substitution, by such a
      substring. */
  lemma CorrectedHit(s: string, minLen: int, order: seq<string>, vocab: seq<string>)
    requires Enumerates(order, UsableSubstrings(s, minLen))
    ensures var r := Substitute(s, DropZeroOne(order), vocab);
      r.Success? && (exists x :: x in UsableSubstrings(s, minLen) && '0' !in x && '1' !in x && HasMatch(x, vocab)) ==>
        exists sub :: sub in UsableSubstrings(s, minLen) && '0' !in sub && '1' !in sub && HasMatch(sub, vocab)
          && SubstitutedBy(s, r.value, sub, vocab)
  {
    var pops := DropZeroOne(order);
    var r := Substitute(s, pops, vocab);
    if r.Success? && exists x :: x in UsableSubstrings(s, minLen) && '0' !in x && '1' !in x && HasMatch(x, vocab) {
      var x :| x in UsableSubstrings(s, minLen) && '0' !in x && '1' !in x && HasMatch(x, vocab);
      assert x in pops;
      var a :| 0 <= a < |pops| && pops[a] == x;
      var k :| FirstHit(pops, vocab, k) && SubstitutedBy(s, r.value, pops[k], vocab);
      assert pops[k] in pops;
    }
  }

  /** The finding, on a concrete input: a number shorter than the minimum
      word length makes the collector fall off its end, so the code as
      written raises `TypeError`, while the corrected collector returns the
      digits unchanged. */
  lemma ShortNumberRaises(vocab: seq<string>)
    ensures Enumerates([], UsableSubstrings("23", 4))
    ensures NumberToWords("2-3", vocab, 4, []) == Failure(TypeError)
    ensures NumberToWordsIntended("2-3", vocab, 4, []) == Success("23")
  {
    UsableSubstringsEmpty("23", 4);
    assert StripHyphens("2-3") == "23";
  }
}
