/** The exhaustive engine `all_wordifications` (phoneword_generator.py lines
    77-112): for every partition of the hyphen-stripped number, every part
    gets a candidate set (computed once and kept in a memo), and every way of
    picking one candidate per part, concatenated, joins the result set. */
module Wordify {
  import opened Outcomes
  import opened PyStrings
  import opened Keypad
  import opened Matcher
  import opened PartitionGen
  import opened CartesianProduct
  import opened Reverse

  /** A part whose candidate set can be computed without raising: one that
      contains `0` or `1` is never looked up in the table, any other must
      consist of digits. */
  predicate Resolvable(sub: string) {
    '0' in sub || '1' in sub || AllDigits(sub)
  }

  /** Lines 99-105: the candidate set of one part.  A part holding `0` or
      `1` can only stand for itself; any other part stands for itself or
      for any upper-cased dictionary word that matches its keypad pattern.
      The set is never empty, and building the pattern raises `KeyError` on
      a character that is not a digit. */
  function Candidates(sub: string, vocab: seq<string>): (r: Result<set<string>>)
    ensures r.Success? <==> Resolvable(sub)
    ensures r.Success? ==> sub in r.value
    ensures r.Success? && ('0' in sub || '1' in sub) ==> r.value == {sub}
    ensures r.Success? && '0' !in sub && '1' !in sub ==>
      r.value == MatchingWords(KeypadPattern(sub), vocab) + {sub}
    ensures r.Failure? ==> r.error.KeyError? && r.error.key in sub && r.error.key !in Mapping
  {
    if '1' in sub || '0' in sub then Success({sub})
    else match BuildPattern(sub)
      case Failure(e) => Failure(e)
      case Success(p) => Success(FindValidWord(p, vocab, true).words + {sub})
  }

  /** The candidate sets of the parts of one partition, in order (the
      arguments of `product` on line 107). */
  function PartSets(parts: seq<string>, vocab: seq<string>): (r: seq<set<string>>)
    requires forall k :: 0 <= k < |parts| ==> Resolvable(parts[k])
    ensures |r| == |parts|
    ensures forall k :: 0 <= k < |parts| ==> parts[k] in r[k]
  {
    seq(|parts|, k requires 0 <= k < |parts| && Resolvable(parts[k]) => Candidates(parts[k], vocab).value)
  }

  /** Every part of every listed partition is resolvable. */
  predicate AllResolvable(ps: seq<seq<string>>) {
    forall a, b :: 0 <= a < |ps| && 0 <= b < |ps[a]| ==> Resolvable(ps[a][b])
  }

  /** The union, over the listed partitions, of the joined products of
      their candidate sets: what the loop of lines 94-110 accumulates. */
  function UnionProducts(ps: seq<seq<string>>, vocab: seq<string>): set<string>
    requires AllResolvable(ps)
    decreases |ps|
  {
    if |ps| == 0 then {}
    else
      assert AllResolvable(ps[..|ps| - 1]);
      UnionProducts(ps[..|ps| - 1], vocab) + Product(PartSets(ps[|ps| - 1], vocab))
  }

  /** The parts of a partition of a digit string are digit strings. */
  lemma {:induction false} PartsAreDigits(p: seq<string>)
    requires AllDigits(Join(p))
    ensures forall b :: 0 <= b < |p| ==> AllDigits(p[b])
  {
    forall b, k | 0 <= b < |p| && 0 <= k < |p[b]|
      ensures p[b][k] in Mapping
    {
      JoinContains(p, b, p[b][k]);
    }
  }

  /** Every part of every partition of a digit string is resolvable. */
  lemma PartitionsResolvable(s: string)
    requires AllDigits(s)
    ensures AllResolvable(Partitions(s))
  {
    var ps := Partitions(s);
    PartitionsSound(s);
    forall a | 0 <= a < |ps|
      ensures forall b :: 0 <= b < |ps[a]| ==> Resolvable(ps[a][b])
    {
      PartsAreDigits(ps[a]);
    }
  }

  /** The reference result of `all_wordifications` on a hyphen-free digit
      string: the same union, computed without the memo. */
  function Wordifications(s: string, vocab: seq<string>): set<string>
    requires AllDigits(s)
  {
    PartitionsResolvable(s);
    UnionProducts(Partitions(s), vocab)
  }

  /** A string is in the union exactly when it is in the product of one of
      the listed partitions. */
  lemma {:induction false} UnionProductsMember(ps: seq<seq<string>>, vocab: seq<string>, x: string)
    requires AllResolvable(ps)
    ensures x in UnionProducts(ps, vocab) <==>
      exists a :: 0 <= a < |ps| && x in Product(PartSets(ps[a], vocab))
    decreases |ps|
  {
    if |ps| > 0 {
      var init := ps[..|ps| - 1];
      assert AllResolvable(init);
      UnionProductsMember(init, vocab, x);
      if x in UnionProducts(init, vocab) {
        var a :| 0 <= a < |init| && x in Product(PartSets(init[a], vocab));
        assert ps[a] == init[a];
      }
      if exists a :: 0 <= a < |ps| && x in Product(PartSets(ps[a], vocab)) {
        var a :| 0 <= a < |ps| && x in Product(PartSets(ps[a], vocab));
        if a < |ps| - 1 {
          assert init[a] == ps[a];
        }
      }
    }
  }

  /** Each candidate of a digit part spells that part on the keypad. */
  lemma CandidatesSpell(sub: string, vocab: seq<string>, c: string)
    requires AllDigits(sub)
    requires c in Candidates(sub, vocab).value
    ensures Matches(KeypadPattern(sub), c)
  {
    DigitsMatchThemselves(sub);
  }

  /** Every member of the product of a digit partition's candidate sets
      spells the joined partition. */
  lemma {:induction false} ProductSpells(parts: seq<string>, vocab: seq<string>, x: string)
    requires forall k :: 0 <= k < |parts| ==> AllDigits(parts[k])
    requires x in Product(PartSets(parts, vocab))
    ensures AllDigits(Join(parts)) && Matches(KeypadPattern(Join(parts)), x)
  {
    var sets := PartSets(parts, vocab);
    if |parts| == 0 {
      assert x == "";
    } else {
      var y, z :| y in sets[0] && z in Product(sets[1..]) && x == y + z;
      assert sets[1..] == PartSets(parts[1..], vocab);
      ProductSpells(parts[1..], vocab, z);
      CandidatesSpell(parts[0], vocab, y);
      KeypadPatternAppend(parts[0], Join(parts[1..]));
      MatchesAppend(KeypadPattern(parts[0]), KeypadPattern(Join(parts[1..])), y, z);
    }
  }

  /** Soundness: every wordification spells the digit string, so it has the
      same length and keeps every `0` and `1` in place. */
  lemma WordificationsSpell(s: string, vocab: seq<string>, x: string)
    requires AllDigits(s) && x in Wordifications(s, vocab)
    ensures Matches(KeypadPattern(s), x)
    ensures |x| == |s|
    ensures forall k :: 0 <= k < |s| && (s[k] == '0' || s[k] == '1') ==> x[k] == s[k]
  {
    var ps := Partitions(s);
    PartitionsResolvable(s);
    UnionProductsMember(ps, vocab, x);
    var a :| 0 <= a < |ps| && x in Product(PartSets(ps[a], vocab));
    PartitionsSound(s);
    PartsAreDigits(ps[a]);
    ProductSpells(ps[a], vocab, x);
  }

  /** One way to render a partition: each part is kept as it is, or, when it
      holds neither `0` nor `1`, replaced by a matching dictionary word. */
  predicate Rendering(cs: seq<string>, p: seq<string>, vocab: seq<string>) {
    && |cs| == |p|
    && forall k :: 0 <= k < |p| ==>
      || cs[k] == p[k]
      || (AllDigits(p[k]) && '0' !in p[k] && '1' !in p[k]
          && cs[k] in MatchingWords(KeypadPattern(p[k]), vocab))
  }

  /** The renderings of a digit partition are exactly the choices from its
      candidate sets. */
  lemma RenderingIsChoice(cs: seq<string>, p: seq<string>, vocab: seq<string>)
    requires forall k :: 0 <= k < |p| ==> AllDigits(p[k])
    ensures Rendering(cs, p, vocab) <==> IsChoice(cs, PartSets(p, vocab))
  {
  }

  /** Characterisation, independent of the generation order and the memo: a
      string is a wordification of a non-empty digit string exactly when
      some partition of it, rendered part by part, joins to that string. */
  lemma WordificationsCharacterised(s: string, vocab: seq<string>, x: string)
    requires AllDigits(s)
    ensures x in Wordifications(s, vocab) <==>
      exists p, cs :: IsPartition(p, s) && |p| > 0 && Rendering(cs, p, vocab) && Join(cs) == x
  {
    var ps := Partitions(s);
    PartitionsResolvable(s);
    PartitionsSound(s);
    UnionProductsMember(ps, vocab, x);
    if x in Wordifications(s, vocab) {
      var a :| 0 <= a < |ps| && x in Product(PartSets(ps[a], vocab));
      PartsAreDigits(ps[a]);
      ProductChoice(PartSets(ps[a], vocab), x);
      var cs :| IsChoice(cs, PartSets(ps[a], vocab)) && Join(cs) == x;
      RenderingIsChoice(cs, ps[a], vocab);
      assert |s| > 0 by {
        PartitionsCount(s);
      }
      assert |ps[a]| > 0;
    }
    if exists p, cs :: IsPartition(p, s) && |p| > 0 && Rendering(cs, p, vocab) && Join(cs) == x {
      var p, cs :| IsPartition(p, s) && |p| > 0 && Rendering(cs, p, vocab) && Join(cs) == x;
      assert |s| > 0 by {
        assert Join(p) == p[0] + Join(p[1..]);
      }
      PartitionsComplete(s, p);
      var a :| 0 <= a < |ps| && ps[a] == p;
      PartsAreDigits(p);
      RenderingIsChoice(cs, p, vocab);
      ProductContains(PartSets(p, vocab), cs);
    }
  }

  /** The hyphen-free number itself is always a wordification (the
      partition into one part, kept as it is). */
  lemma InputIsWordification(s: string, vocab: seq<string>)
    requires AllDigits(s) && |s| > 0
    ensures s in Wordifications(s, vocab)
  {
    var p := [s];
    assert IsPartition(p, s);
    assert Rendering(p, p, vocab);
    WordificationsCharacterised(s, vocab, s);
  }

  /** A dictionary word that matches the whole number (free of `0` and
      `1`) is a wordification. */
  lemma WholeWordIsWordification(s: string, vocab: seq<string>, w: string)
    requires AllDigits(s) && |s| > 0 && '0' !in s && '1' !in s
    requires w in MatchingWords(KeypadPattern(s), vocab)
    ensures w in Wordifications(s, vocab)
  {
    var p := [s];
    assert IsPartition(p, s);
    assert Rendering([w], p, vocab);
    WordificationsCharacterised(s, vocab, w);
  }

  /** The empty number has no partitions, hence no wordifications. */
  lemma EmptyHasNoWordifications(vocab: seq<string>)
    ensures Wordifications("", vocab) == {}
  {
  }

  /** Round trip: mapping any wordification back gives the original digits,
      formatted. */
  lemma WordificationRoundTrip(s: string, vocab: seq<string>, x: string)
    requires AllDigits(s) && x in Wordifications(s, vocab)
    ensures WordsToNumber(x) == Success(Format(s))
  {
    WordificationsSpell(s, vocab, x);
    assert |s| > 0 by {
      if |s| == 0 {
        EmptyHasNoWordifications(vocab);
      }
    }
    WordsToNumberOfSpelling(s, x);
  }

  /** The memo holds, for every part met so far, its candidate set. */
  predicate MemoValid(memo: map<string, set<string>>, vocab: seq<string>) {
    forall key :: key in memo ==> Resolvable(key) && memo[key] == Candidates(key, vocab).value
  }

  /** The loop of lines 97-105 over the parts of one partition: a part not
      yet in the memo gets its candidate set computed and stored; a part
      already there is left alone.  Existing entries never change. */
  method ResolveParts(parts: seq<string>, memo: map<string, set<string>>, vocab: seq<string>)
    returns (r: Result<map<string, set<string>>>)
    requires MemoValid(memo, vocab)
    ensures r.Success? ==> MemoValid(r.value, vocab) && memo.Keys <= r.value.Keys
    ensures r.Success? ==> forall b :: 0 <= b < |parts| ==> parts[b] in r.value
    ensures (forall b :: 0 <= b < |parts| ==> Resolvable(parts[b])) ==> r.Success?
    ensures r.Failure? ==>
      && r.error.KeyError? && r.error.key !in Mapping
      && exists b :: 0 <= b < |parts| && r.error.key in parts[b]
  {
    var m := memo;
    var j := 0;
    while j < |parts|
      invariant 0 <= j <= |parts|
      invariant MemoValid(m, vocab) && memo.Keys <= m.Keys
      invariant forall b :: 0 <= b < j ==> parts[b] in m
    {
      var sub := parts[j];
      if sub !in m {
        var c := Candidates(sub, vocab);
        if c.Failure? {
          return Failure(c.error);
        }
        m := m[sub := c.value];
      }
      j := j + 1;
    }
    return Success(m);
  }

  /** If every part of every partition of `s` resolved, `s` is a digit
      string: the partition into single characters is among them. */
  lemma ResolvedPartitionsMeanDigits(s: string)
    requires AllResolvable(Partitions(s))
    ensures AllDigits(s)
  {
    if |s| > 0 {
      FirstPartitionIsSingletons(s);
      forall k | 0 <= k < |s|
        ensures s[k] in Mapping
      {
        assert Resolvable(Partitions(s)[0][k]);
        assert Partitions(s)[0][k] == [s[k]];
        assert s[k] == '0' || s[k] == '1' || [s[k]][0] in Mapping;
        assert '0' in Mapping && '1' in Mapping;
      }
    }
  }

  /** The loop of lines 94-110 over a list of partitions of `s`, with the
      memo threaded through: it accumulates the union of the products, or
      raises at the first part whose candidate set cannot be built. */
  method Accumulate(s: string, ps: seq<seq<string>>, vocab: seq<string>) returns (r: Result<set<string>>)
    requires forall a :: 0 <= a < |ps| ==> Join(ps[a]) == s
    ensures r.Success? ==> AllResolvable(ps) && r.value == UnionProducts(ps, vocab)
    ensures AllResolvable(ps) ==> r.Success?
    ensures r.Failure? ==> r.error.KeyError? && r.error.key in s && r.error.key !in Mapping
  {
    var memo: map<string, set<string>> := map[];
    var ans: set<string> := {};
    var i := 0;
    while i < |ps|
      invariant 0 <= i <= |ps|
      invariant MemoValid(memo, vocab)
      invariant AllResolvable(ps[..i])
      invariant ans == UnionProducts(ps[..i], vocab)
    {
      var parts := ps[i];
      var resolved := ResolveParts(parts, memo, vocab);
      if resolved.Failure? {
        var b :| 0 <= b < |parts| && resolved.error.key in parts[b];
        JoinContains(parts, b, resolved.error.key);
        assert !AllResolvable(ps);
        return Failure(resolved.error);
      }
      memo := resolved.value;
      var sets := seq(|parts|, k requires 0 <= k < |parts| && parts[k] in memo => memo[parts[k]]);
      assert sets == PartSets(parts, vocab);
      assert ps[..i + 1][..i] == ps[..i];
      assert AllResolvable(ps[..i + 1]);
      ans := ans + Product(sets);
      i := i + 1;
    }
    assert ps[..i] == ps;
    return Success(ans);
  }

  /** `all_wordifications`, with the per-call memo of lines 93-105: a part's
      candidate set is computed the first time the part is met and looked up
      ever after.  The memo is an optimisation only: the result equals the
      memo-free reference.  It raises `KeyError` exactly when the stripped
      number holds a character that is not a digit (the first partition
      tried splits into single characters). */
  method AllWordifications(num: string, vocab: seq<string>) returns (r: Result<set<string>>)
    requires '~' !in num
    ensures r.Success? <==> AllDigits(StripHyphens(num))
    ensures r.Failure? ==>
      r.error.KeyError? && r.error.key in StripHyphens(num) && r.error.key !in Mapping
    ensures r.Success? ==> r.value == Wordifications(StripHyphens(num), vocab)
    ensures r.Success? ==>
      forall x :: x in r.value ==> Matches(KeypadPattern(StripHyphens(num)), x)
    ensures r.Success? && |StripHyphens(num)| > 0 ==> StripHyphens(num) in r.value
    ensures r.Success? && |StripHyphens(num)| == 0 ==> r.value == {}
  {
    var s := StripHyphens(num);
    PartitionsSound(s);
    r := Accumulate(s, Partitions(s), vocab);
    if r.Success? {
      ResolvedPartitionsMeanDigits(s);
      forall x | x in r.value
        ensures Matches(KeypadPattern(s), x)
      {
        WordificationsSpell(s, vocab, x);
      }
      if |s| > 0 {
        InputIsWordification(s, vocab);
      }
    }
  }
}
