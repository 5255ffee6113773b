/** The pattern matcher `find_valid_word` (phoneword_generator.py lines
    28-36).  The regular expression the callers build, `^[..][..]...$` with
    one character class per digit, is modelled directly as a sequence of
    character classes; "matches" means the same length and, position by
    position, membership in the class. */
module Matcher {
  import opened PyStrings
  import opened Keypad

  /** One character class per position, anchored at both ends. */
  type Pattern = seq<seq<char>>

  /** `re.match(pattern, w)` for an anchored pattern of character classes. */
  predicate Matches(p: Pattern, w: string) {
    |w| == |p| && forall k :: 0 <= k < |w| ==> w[k] in p[k]
  }

  /** What the matcher returns: a single word (single mode, on a hit) or a
      set of words (all-words mode, or a miss in single mode). */
  datatype Found = OneWord(word: string) | WordSet(words: set<string>)

  /** The reference answer: the upper-cased vocabulary words that match. */
  function MatchingWords(p: Pattern, vocab: seq<string>): set<string> {
    set w | w in vocab && Matches(p, Upper(w)) :: Upper(w)
  }

  /** Position `i` holds the first vocabulary word, in iteration order,
      whose upper-cased form matches `p`. */
  predicate FirstMatchAt(p: Pattern, vocab: seq<string>, i: int) {
    && 0 <= i < |vocab|
    && Matches(p, Upper(vocab[i]))
    && forall j :: 0 <= j < i ==> !Matches(p, Upper(vocab[j]))
  }

  /** The loop of lines 30-36 over the vocabulary in its iteration order
      `vocab`.  With `getAll` it collects every upper-cased matching word;
      without it, it returns the first match in iteration order, or the
      empty set when nothing matches. */
  function FindValidWord(p: Pattern, vocab: seq<string>, getAll: bool): (r: Found)
    ensures getAll ==> r == WordSet(MatchingWords(p, vocab))
    ensures !getAll ==> (r.OneWord? <==> MatchingWords(p, vocab) != {})
    ensures !getAll && r.WordSet? ==> r.words == {}
    ensures r.OneWord? ==> exists i :: FirstMatchAt(p, vocab, i) && r.word == Upper(vocab[i])
  {
    if |vocab| == 0 then
      assert MatchingWords(p, vocab) == {};
      WordSet({})
    else
      var w := Upper(vocab[0]);
      assert MatchingWords(p, vocab) == (if Matches(p, w) then {w} else {}) + MatchingWords(p, vocab[1..]);
      if Matches(p, w) then
        if getAll then WordSet({w} + FindValidWord(p, vocab[1..], true).words)
        else
          assert FirstMatchAt(p, vocab, 0);
          OneWord(w)
      else
        var r := FindValidWord(p, vocab[1..], getAll);
        assert r.OneWord? ==> exists i :: FirstMatchAt(p, vocab, i) && r.word == Upper(vocab[i]) by {
          if r.OneWord? {
            var i :| FirstMatchAt(p, vocab[1..], i) && r.word == Upper(vocab[1..][i]);
            assert FirstMatchAt(p, vocab, i + 1);
          }
        }
        r
  }

  /** Matches are compositional: a match for each of two patterns gives a
      match for their concatenation. */
  lemma MatchesAppend(p: Pattern, q: Pattern, x: string, y: string)
    requires Matches(p, x) && Matches(q, y)
    ensures Matches(p + q, x + y)
  {
  }

  /** A digit string matches its own keypad pattern. */
  lemma DigitsMatchThemselves(s: string)
    requires AllDigits(s)
    ensures Matches(KeypadPattern(s), s)
  {
    SelfMatches(s);
  }
}
