/** The reverse mapper `words_to_number` (phoneword_generator.py lines
    69-75): strips hyphens, upper-cases, maps every character back to the
    digit whose keypad list holds it and formats the digits as
    `d[0]-d[1:4]-d[4:7]-d[7:]`. */
module Reverse {
  import opened Outcomes
  import opened PyStrings
  import opened Keypad
  import opened Matcher

  /** `ch` appears in the keypad list of some digit. */
  predicate Listed(ch: char) {
    exists d :: d in Mapping && ch in Mapping[d]
  }

  /** `next(key for key, val in mapping.items() if ch in val)` over the keys
      `keys`, visited in order: the first key whose list holds `ch`, or
      `StopIteration` when there is none. */
  function KeyFor(ch: char, keys: seq<char>): (r: Result<char>)
    requires forall k :: 0 <= k < |keys| ==> keys[k] in Mapping
    ensures r.Success? ==> r.value in keys && ch in Mapping[r.value]
    ensures r.Failure? <==> forall k :: 0 <= k < |keys| ==> ch !in Mapping[keys[k]]
    ensures r.Failure? ==> r.error == StopIteration(ch)
  {
    if |keys| == 0 then Failure(StopIteration(ch))
    else if ch in Mapping[keys[0]] then Success(keys[0])
    else KeyFor(ch, keys[1..])
  }

  /** The generator expression of line 73, over `mapping.items()`.  Since the
      lists are disjoint, the digit found is the only one whose list holds
      `ch`, and it fails exactly for characters listed nowhere. */
  function DigitFor(ch: char): (r: Result<char>)
    ensures r.Success? <==> Listed(ch)
    ensures r.Success? ==> r.value in Mapping && ch in Mapping[r.value]
    ensures forall d :: d in Mapping && ch in Mapping[d] ==> r == Success(d)
    ensures r.Failure? ==> r.error == StopIteration(ch)
  {
    KeyOrderIsKeys();
    var r := KeyFor(ch, KeyOrder);
    assert r.Success? ==> Listed(ch);
    assert Listed(ch) ==> r.Success? by {
      if Listed(ch) {
        var d :| d in Mapping && ch in Mapping[d];
        assert d in KeyOrder;
      }
    }
    assert forall d :: d in Mapping && ch in Mapping[d] ==> r == Success(d) by {
      forall d | d in Mapping && ch in Mapping[d]
        ensures r == Success(d)
      {
        assert d in KeyOrder;
        ListsDisjoint(d, r.value, ch);
      }
    }
    r
  }

  /** The loop of lines 71-73: the digit string the characters of `u` come
      from.  On success `u` spells the digits (each character is in the list
      of its digit); it raises at a character listed nowhere. */
  function ToDigits(u: string): (r: Result<string>)
    ensures r.Success? <==> forall k :: 0 <= k < |u| ==> Listed(u[k])
    ensures r.Success? ==> AllDigits(r.value) && Matches(KeypadPattern(r.value), u)
    ensures r.Failure? ==> r.error.StopIteration? && r.error.ch in u && !Listed(r.error.ch)
  {
    if |u| == 0 then Success([])
    else match DigitFor(u[0])
      case Failure(e) => Failure(e)
      case Success(d) =>
        match ToDigits(u[1..])
        case Failure(e) => Failure(e)
        case Success(rest) =>
          ToDigitsCons(u, d, rest);
          Success([d] + rest)
  }

  /** The step of `ToDigits`: a listed first character in front of a listed
      rest, and its digit in front of the rest's digits. */
  lemma ToDigitsCons(u: string, d: char, rest: string)
    requires |u| > 0 && Listed(u[0]) && d in Mapping && u[0] in Mapping[d]
    requires forall k :: 0 <= k < |u[1..]| ==> Listed(u[1..][k])
    requires AllDigits(rest) && Matches(KeypadPattern(rest), u[1..])
    ensures forall k :: 0 <= k < |u| ==> Listed(u[k])
    ensures AllDigits([d] + rest) && Matches(KeypadPattern([d] + rest), u)
  {
    forall k | 0 < k < |u|
      ensures Listed(u[k])
    {
      assert u[k] == u[1..][k - 1];
    }
    KeypadPatternCons([d] + rest);
    assert ([d] + rest)[1..] == rest;
  }

  /** The formatting of line 75, `d[0]-d[1:4]-d[4:7]-d[7:]`, with Python's
      clamping slices: short digit strings give empty groups, so the three
      hyphens are always there, after the first digit and after at most
      three more digits each. */
  function Format(d: string): (r: string)
    requires |d| >= 1
    ensures |r| == |d| + 3
    ensures var a, b := if |d| < 4 then |d| else 4, if |d| < 7 then |d| else 7;
      r == d[..1] + "-" + d[1..a] + "-" + d[a..b] + "-" + d[b..]
  {
    var a, b := if |d| < 4 then |d| else 4, if |d| < 7 then |d| else 7;
    assert d[..1] == [d[0]];
    assert PySlice(d, 1, 4) == d[1..a];
    assert PySlice(d, 4, 7) == d[a..b];
    assert PySlice(d, 7, |d|) == d[b..];
    [d[0]] + "-" + PySlice(d, 1, 4) + "-" + PySlice(d, 4, 7) + "-" + PySlice(d, 7, |d|)
  }

  /** The three groups of `Format` are consecutive pieces of the digits. */
  lemma FormatGroups(d: string)
    requires |d| >= 1
    ensures d == [d[0]] + PySlice(d, 1, 4) + PySlice(d, 4, 7) + PySlice(d, 7, |d|)
  {
    var a, b := if |d| < 4 then |d| else 4, if |d| < 7 then |d| else 7;
    assert d[..1] == [d[0]];
    assert PySlice(d, 1, 4) == d[1..a];
    assert PySlice(d, 4, 7) == d[a..b];
    assert PySlice(d, 7, |d|) == d[b..];
    assert d[..a] == d[..1] + d[1..a];
    assert d[..b] == d[..a] + d[a..b];
    assert d == d[..b] + d[b..];
  }

  /** Removing the three hyphens from a formatted number gives the digits
      back: formatting loses nothing. */
  lemma FormatStripHyphens(d: string)
    requires |d| >= 1 && '-' !in d
    ensures StripHyphens(Format(d)) == d
  {
    var a, g1, g2, g3 := [d[0]], PySlice(d, 1, 4), PySlice(d, 4, 7), PySlice(d, 7, |d|);
    FormatGroups(d);
    var a1 := a + "-" + g1;
    var a2 := a1 + "-" + g2;
    var a3 := a2 + "-" + g3;
    assert a3 == Format(d);
    StripHyphensNoop(a);
    StripHyphensNoop(g1);
    StripHyphensNoop(g2);
    StripHyphensNoop(g3);
    StripAroundHyphen(a, g1);
    StripAroundHyphen(a1, g2);
    StripAroundHyphen(a2, g3);
  }

  /** A hyphen between two strings disappears when hyphens are stripped. */
  lemma StripAroundHyphen(x: string, y: string)
    ensures StripHyphens(x + "-" + y) == StripHyphens(x) + StripHyphens(y)
  {
    StripHyphensAppend(x + "-", y);
    StripHyphensAppend(x, "-");
  }

  /** `words_to_number`: raises `StopIteration` at a character listed for no
      digit (after hyphens are removed and letters upper-cased), raises
      `IndexError` on an input with no characters left, and otherwise
      formats the digits; inputs shorter than eight characters are not
      rejected. */
  function WordsToNumber(wordified: string): (r: Result<string>)
    ensures r.Success? <==>
      |StripHyphens(wordified)| > 0 && forall k :: 0 <= k < |Upper(StripHyphens(wordified))| ==> Listed(Upper(StripHyphens(wordified))[k])
    ensures r.Success? ==> |r.value| == |StripHyphens(wordified)| + 3
    ensures r == Failure(IndexError) <==> |StripHyphens(wordified)| == 0
    ensures r.Failure? && r.error.StopIteration? ==> !Listed(r.error.ch)
    ensures r.Failure? && |StripHyphens(wordified)| > 0 ==>
      r.error.StopIteration? && r.error.ch in Upper(StripHyphens(wordified))
    ensures r.Success? ==>
      exists d :: |d| >= 1 && AllDigits(d) && Matches(KeypadPattern(d), Upper(StripHyphens(wordified))) && r.value == Format(d)
  {
    var u := Upper(StripHyphens(wordified));
    match ToDigits(u)
    case Failure(e) => Failure(e)
    case Success(d) => if |d| == 0 then Failure(IndexError) else Success(Format(d))
  }

  /** A string that spells the digit string `d` on the keypad maps back to
      `d`: the characters of every keypad list are upper-case or digits, and
      the lists are disjoint. */
  lemma {:induction false} ToDigitsOfSpelling(d: string, x: string)
    requires AllDigits(d) && Matches(KeypadPattern(d), x)
    ensures ToDigits(x) == Success(d)
    decreases |x|
  {
    if |x| > 0 {
      OwnerOfListed(d[0], x[0]);
      assert AllDigits(d[1..]);
      assert Matches(KeypadPattern(d[1..]), x[1..]) by {
        forall k | 0 <= k < |x[1..]|
          ensures x[1..][k] in KeypadPattern(d[1..])[k]
        {
          assert x[1..][k] == x[k + 1];
          assert KeypadPattern(d)[k + 1] == Mapping[d[k + 1]];
        }
      }
      ToDigitsOfSpelling(d[1..], x[1..]);
      assert d == [d[0]] + d[1..];
    }
  }

  /** A spelling of the keypad pattern of `d` is already upper-case and free
      of hyphens. */
  lemma SpellingIsNormalised(d: string, x: string)
    requires AllDigits(d) && Matches(KeypadPattern(d), x)
    ensures StripHyphens(x) == x && Upper(x) == x
  {
    forall k | 0 <= k < |x|
      ensures x[k] != '-' && !('a' <= x[k] <= 'z')
    {
      OwnerOfListed(d[k], x[k]);
    }
    StripHyphensNoop(x);
  }

  /** Round trip of the reverse mapper: any string that spells a non-empty
      digit string `d` maps back to `d`, formatted. */
  lemma WordsToNumberOfSpelling(d: string, x: string)
    requires |d| >= 1 && AllDigits(d) && Matches(KeypadPattern(d), x)
    ensures WordsToNumber(x) == Success(Format(d))
  {
    SpellingIsNormalised(d, x);
    ToDigitsOfSpelling(d, x);
  }

  /** Mapping an already formatted number again gives it back unchanged. */
  lemma WordsToNumberIdempotent(d: string)
    requires |d| >= 1 && AllDigits(d)
    ensures WordsToNumber(Format(d)) == Success(Format(d))
  {
    var f := Format(d);
    assert '-' !in d;
    FormatStripHyphens(d);
    assert Upper(StripHyphens(f)) == d by {
      DigitsMatchThemselves(d);
      SpellingIsNormalised(d, d);
    }
    DigitsMatchThemselves(d);
    ToDigitsOfSpelling(d, d);
  }
}
