/** The partition generator `gen_partitions` (phoneword_generator.py lines
    80-89), nested in `all_wordifications`.  The generator joins the parts of
    a partition with `'~'` and the caller splits them again; here a partition
    is directly the sequence of its parts, and the lazy generator is the
    finite sequence of everything it yields, in the order it yields it. */
module PartitionGen {
  import opened PyStrings

  /** `p` splits `s` into contiguous non-empty parts, in order. */
  predicate IsPartition(p: seq<string>, s: string) {
    && (forall k :: 0 <= k < |p| ==> |p[k]| > 0)
    && Join(p) == s
  }

  /** No partition is listed twice. */
  predicate Distinct(ps: seq<seq<string>>) {
    forall a, b :: 0 <= a < b < |ps| ==> ps[a] != ps[b]
  }

  /** `'~'.join([first, j])` for every `j` the inner generator yields. */
  function Prepend(first: string, ps: seq<seq<string>>): seq<seq<string>>
  {
    seq(|ps|, k requires 0 <= k < |ps| => [first] + ps[k])
  }

  /** Everything `gen_partitions(s)` yields; nothing for the empty string. */
  function Partitions(s: string): seq<seq<string>>
    decreases |s|, |s| + 2
  {
    if |s| == 0 then [] else Splits(s, 1)
  }

  /** The iterations `i + 1 == cut, ..., len(s)` of the generator's outer
      loop: the first part is `s[..cut]`; at the last position the whole
      string is yielded, and the rest is partitioned recursively. */
  function Splits(s: string, cut: nat): seq<seq<string>>
    requires 1 <= cut <= |s| + 1
    decreases |s|, |s| + 1 - cut
  {
    if cut > |s| then []
    else
      (if cut == |s| then [[s]] else [])
      + Prepend(s[..cut], Partitions(s[cut..]))
      + Splits(s, cut + 1)
  }

  /** 2 to the power `n`. */
  function Pow2(n: nat): nat {
    if n == 0 then 1 else 2 * Pow2(n - 1)
  }

  /** A string of length n >= 1 has 2^(n-1) partitions: one cut-or-not choice
      at each inner boundary. */
  lemma {:induction false} PartitionsCount(s: string)
    requires |s| >= 1
    ensures |Partitions(s)| == Pow2(|s| - 1)
    decreases |s|, |s| + 2
  {
    SplitsCount(s, 1);
  }

  lemma {:induction false} SplitsCount(s: string, cut: nat)
    requires 1 <= cut <= |s|
    ensures |Splits(s, cut)| == Pow2(|s| - cut)
    decreases |s|, |s| + 1 - cut
  {
    if cut == |s| {
      assert Partitions(s[cut..]) == [];
      assert Splits(s, cut + 1) == [];
    } else {
      PartitionsCount(s[cut..]);
      SplitsCount(s, cut + 1);
    }
  }

  /** Everything the generator yields is a partition of its input. */
  lemma {:induction false} PartitionsSound(s: string)
    ensures forall k :: 0 <= k < |Partitions(s)| ==> IsPartition(Partitions(s)[k], s)
    decreases |s|, |s| + 2
  {
    if |s| > 0 {
      SplitsSound(s, 1);
    }
  }

  /** Everything `Splits(s, cut)` yields is a partition whose first part has
      at least `cut` characters. */
  lemma {:induction false} SplitsSound(s: string, cut: nat)
    requires 1 <= cut <= |s| + 1
    ensures forall k :: 0 <= k < |Splits(s, cut)| ==>
      IsPartition(Splits(s, cut)[k], s) && |Splits(s, cut)[k]| > 0 && |Splits(s, cut)[k][0]| >= cut
    decreases |s|, |s| + 1 - cut
  {
    if cut <= |s| {
      var whole: seq<seq<string>> := if cut == |s| then [[s]] else [];
      var pre := Prepend(s[..cut], Partitions(s[cut..]));
      var rest := Splits(s, cut + 1);
      assert Splits(s, cut) == whole + pre + rest;
      PartitionsSound(s[cut..]);
      SplitsSound(s, cut + 1);
      forall k | 0 <= k < |pre|
        ensures IsPartition(pre[k], s) && |pre[k]| > 0 && |pre[k][0]| >= cut
      {
        var q := Partitions(s[cut..])[k];
        assert pre[k] == [s[..cut]] + q;
        assert ([s[..cut]] + q)[1..] == q;
        assert s == s[..cut] + s[cut..];
      }
    }
  }

  /** Everything the generator yields is yielded once. */
  lemma {:induction false} PartitionsDistinct(s: string)
    ensures Distinct(Partitions(s))
    decreases |s|, |s| + 2
  {
    if |s| > 0 {
      SplitsDistinct(s, 1);
    }
  }

  lemma {:induction false} SplitsDistinct(s: string, cut: nat)
    requires 1 <= cut <= |s| + 1
    ensures Distinct(Splits(s, cut))
    decreases |s|, |s| + 1 - cut
  {
    if cut <= |s| {
      var head := Head(s, cut);
      var rest := Splits(s, cut + 1);
      assert Splits(s, cut) == head + rest;
      HeadDistinct(s, cut);
      SplitsDistinct(s, cut + 1);
      forall x, y | x in head && y in rest
        ensures x != y
      {
        SplitsFirstPart(s, cut + 1, y);
      }
      DistinctAppend(head, rest);
    }
  }

  /** What the iteration with first part `s[..cut]` yields: the whole
      string at the last position, then `s[..cut]` before every partition
      of the rest. */
  function Head(s: string, cut: nat): seq<seq<string>>
    requires 1 <= cut <= |s|
  {
    (if cut == |s| then [[s]] else []) + Prepend(s[..cut], Partitions(s[cut..]))
  }

  /** One iteration yields no list twice, and each list it yields has the
      first part `s[..cut]`. */
  lemma {:induction false} HeadDistinct(s: string, cut: nat)
    requires 1 <= cut <= |s|
    ensures Distinct(Head(s, cut))
    ensures forall x :: x in Head(s, cut) ==> |x| > 0 && |x[0]| == cut
    decreases |s|, 0
  {
    var pre := Prepend(s[..cut], Partitions(s[cut..]));
    PartitionsDistinct(s[cut..]);
    PrependDistinct(s[..cut], Partitions(s[cut..]));
    PrependFirst(s[..cut], Partitions(s[cut..]));
    if cut == |s| {
      assert Head(s, cut) == [[s]];
    } else {
      assert Head(s, cut) == pre;
    }
  }

  /** Every list `Prepend` builds starts with the given first part. */
  lemma PrependFirst(first: string, ps: seq<seq<string>>)
    ensures forall x :: x in Prepend(first, ps) ==> |x| > 0 && x[0] == first
  {
  }

  /** A list yielded from `cut` on has a first part at least `cut` long. */
  lemma SplitsFirstPart(s: string, cut: nat, y: seq<string>)
    requires 1 <= cut <= |s| + 1 && y in Splits(s, cut)
    ensures |y| > 0 && |y[0]| >= cut
  {
    SplitsSound(s, cut);
    var b :| 0 <= b < |Splits(s, cut)| && Splits(s, cut)[b] == y;
  }

  /** Putting the same first part in front keeps distinct lists distinct. */
  lemma PrependDistinct(first: string, ps: seq<seq<string>>)
    requires Distinct(ps)
    ensures Distinct(Prepend(first, ps))
  {
    var r := Prepend(first, ps);
    forall a, b | 0 <= a < b < |r|
      ensures r[a] != r[b]
    {
      assert r[a][1..] == ps[a];
      assert r[b][1..] == ps[b];
    }
  }

  /** Two distinct lists with no common element append to a distinct list. */
  lemma DistinctAppend(x: seq<seq<string>>, y: seq<seq<string>>)
    requires Distinct(x) && Distinct(y)
    requires forall u, v :: u in x && v in y ==> u != v
    ensures Distinct(x + y)
  {
    var z := x + y;
    forall a, b | 0 <= a < b < |z|
      ensures z[a] != z[b]
    {
      if b < |x| {
        assert z[a] == x[a] && z[b] == x[b];
      } else if a >= |x| {
        assert z[a] == y[a - |x|] && z[b] == y[b - |x|];
      } else {
        assert z[a] == x[a] && z[b] == y[b - |x|];
        assert x[a] in x && y[b - |x|] in y;
      }
    }
  }

  /** Every partition of a non-empty string is yielded: the generator is
      complete. */
  lemma {:induction false} PartitionsComplete(s: string, p: seq<string>)
    requires |s| > 0 && IsPartition(p, s)
    ensures p in Partitions(s)
    decreases |s|
  {
    var cut := |p[0]|;
    assert Join(p) == p[0] + Join(p[1..]);
    assert p[0] == s[..cut] && Join(p[1..]) == s[cut..];
    if cut == |s| {
      assert p == [s];
      SplitsContains(s, 1, cut, p);
    } else {
      assert IsPartition(p[1..], s[cut..]);
      PartitionsComplete(s[cut..], p[1..]);
      var k :| 0 <= k < |Partitions(s[cut..])| && Partitions(s[cut..])[k] == p[1..];
      assert p == [s[..cut]] + p[1..];
      assert Prepend(s[..cut], Partitions(s[cut..]))[k] == p;
      SplitsContains(s, 1, cut, p);
    }
  }

  /** `Splits(s, from)` contains whatever the iteration at `cut` yields. */
  lemma {:induction false} SplitsContains(s: string, from: nat, cut: nat, p: seq<string>)
    requires 1 <= from <= cut <= |s|
    requires (cut == |s| && p == [s]) || p in Prepend(s[..cut], Partitions(s[cut..]))
    ensures p in Splits(s, from)
    decreases cut - from
  {
    if from < cut {
      SplitsContains(s, from + 1, cut, p);
    }
  }

  /** The first partition yielded splits the string into single characters;
      the generator tries the shortest first part first. */
  lemma {:induction false} FirstPartitionIsSingletons(s: string)
    requires |s| >= 1
    ensures |Partitions(s)| >= 1
    ensures |Partitions(s)[0]| == |s|
    ensures forall k :: 0 <= k < |s| ==> Partitions(s)[0][k] == [s[k]]
    decreases |s|
  {
    PartitionsCount(s);
    if |s| > 1 {
      FirstPartitionIsSingletons(s[1..]);
      var pre := Prepend(s[..1], Partitions(s[1..]));
      assert Splits(s, 1) == pre + Splits(s, 2);
      assert Partitions(s)[0] == [s[..1]] + Partitions(s[1..])[0];
    } else {
      assert Splits(s, 1) == [[s]] + Prepend(s[..1], Partitions(s[1..])) + Splits(s, 2);
    }
  }
}
