/** The keypad table (phoneword_generator.py lines 5-14): every digit maps to
    the characters that may stand for it, its letters followed by the digit
    itself; `0` and `1` stand only for themselves. */
module Keypad {
  import opened Outcomes

  /** The table, a dictionary from digit to admissible characters. */
  const Mapping: map<char, seq<char>> := map[
    '1' := ['1'],
    '2' := ['A', 'B', 'C', '2'],
    '3' := ['D', 'E', 'F', '3'],
    '4' := ['G', 'H', 'I', '4'],
    '5' := ['J', 'K', 'L', '5'],
    '6' := ['M', 'N', 'O', '6'],
    '7' := ['P', 'Q', 'R', 'S', '7'],
    '8' := ['T', 'U', 'V', '8'],
    '9' := ['W', 'X', 'Y', 'Z', '9'],
    '0' := ['0']
  ]

  /** The keys in the dictionary's insertion order, the order in which
      `mapping.items()` visits them. */
  const KeyOrder: seq<char> := ['1', '2', '3', '4', '5', '6', '7', '8', '9', '0']

  /** Every character of `s` is a key of the table. */
  predicate AllDigits(s: string) {
    forall k :: 0 <= k < |s| ==> s[k] in Mapping
  }

  /** The anchored pattern `^[..][..]...$` built from a digit string: position
      k accepts exactly the characters listed for `s[k]`. */
  function KeypadPattern(s: string): (p: seq<seq<char>>)
    requires AllDigits(s)
  {
    seq(|s|, k requires 0 <= k < |s| => Mapping[s[k]])
  }

  /** The per-digit loop of lines 58 and 103: builds the pattern one digit at
      a time and raises `KeyError` at the first character that is not a key:
      every character before it is a key. */
  function BuildPattern(s: string): (r: Result<seq<seq<char>>>)
    ensures r.Success? <==> AllDigits(s)
    ensures r.Success? ==> r.value == KeypadPattern(s)
    ensures r.Failure? ==> r.error.KeyError? && r.error.key in s && r.error.key !in Mapping
    ensures r.Failure? ==> exists i :: 0 <= i < |s| && s[i] == r.error.key && AllDigits(s[..i])
  {
    if |s| == 0 then Success([])
    else if s[0] !in Mapping then
      assert AllDigits(s[..0]);
      Failure(KeyError(s[0]))
    else match BuildPattern(s[1..])
      case Failure(e) =>
        assert exists i :: 0 <= i < |s| && s[i] == e.key && AllDigits(s[..i]) by {
          var i :| 0 <= i < |s[1..]| && s[1..][i] == e.key && AllDigits(s[1..][..i]);
          assert s[..i + 1] == [s[0]] + s[1..][..i];
        }
        Failure(e)
      case Success(rest) =>
        KeypadPatternCons(s);
        Success([Mapping[s[0]]] + rest)
  }

  /** The pattern of a non-empty digit string: the first digit's list, then
      the pattern of the rest. */
  lemma KeypadPatternCons(s: string)
    requires |s| > 0 && AllDigits(s)
    ensures KeypadPattern(s) == [Mapping[s[0]]] + KeypadPattern(s[1..])
  {
  }

  /** The inverse table: the one digit whose list holds `ch`, as an
      independent reference for the disjointness of the lists. */
  function Owner(ch: char): char {
    if ch in "ABC2" then '2'
    else if ch in "DEF3" then '3'
    else if ch in "GHI4" then '4'
    else if ch in "JKL5" then '5'
    else if ch in "MNO6" then '6'
    else if ch in "PQRS7" then '7'
    else if ch in "TUV8" then '8'
    else if ch in "WXYZ9" then '9'
    else ch
  }

  /** Every character listed for digit `d` belongs to `d` and to no other
      digit; in particular every digit stands for itself, and no list holds a
      lower-case letter or a hyphen. */
  lemma OwnerOfListed(d: char, ch: char)
    requires d in Mapping && ch in Mapping[d]
    ensures Owner(ch) == d
    ensures d in Mapping[d]
    ensures ch != '-' && !('a' <= ch <= 'z')
  {
  }

  /** The shape of the table: its keys are exactly the ten digits, `0` and
      `1` stand only for themselves, and every upper-case ASCII letter is
      listed, under the digit `Owner` names. */
  lemma TableShape()
    ensures forall c :: c in Mapping <==> '0' <= c <= '9'
    ensures Mapping['0'] == ['0'] && Mapping['1'] == ['1']
    ensures forall c :: 'A' <= c <= 'Z' ==> Owner(c) in Mapping && c in Mapping[Owner(c)]
  {
  }

  /** The lists of two different digits never share a character. */
  lemma ListsDisjoint(a: char, b: char, ch: char)
    requires a in Mapping && b in Mapping
    requires ch in Mapping[a] && ch in Mapping[b]
    ensures a == b
  {
    OwnerOfListed(a, ch);
    OwnerOfListed(b, ch);
  }

  /** Every key appears in the insertion order, and nothing else does. */
  lemma KeyOrderIsKeys()
    ensures forall c :: c in KeyOrder <==> c in Mapping
    ensures forall i, j :: 0 <= i < j < |KeyOrder| ==> KeyOrder[i] != KeyOrder[j]
  {
  }

  /** A digit string spells itself: each digit is one of its own characters. */
  lemma {:induction false} SelfMatches(s: string)
    requires AllDigits(s)
    ensures forall k :: 0 <= k < |s| ==> s[k] in KeypadPattern(s)[k]
  {
    forall k | 0 <= k < |s|
      ensures s[k] in KeypadPattern(s)[k]
    {
      OwnerOfListed(s[k], s[k]);
    }
  }

  /** The pattern of a concatenation is the concatenation of the patterns. */
  lemma KeypadPatternAppend(a: string, b: string)
    requires AllDigits(a) && AllDigits(b)
    ensures AllDigits(a + b)
    ensures KeypadPattern(a + b) == KeypadPattern(a) + KeypadPattern(b)
  {
  }
}
