/** `itertools.product(*sets)` followed by `"".join` of each tuple
    (phoneword_generator.py lines 107-110): every way of picking one string
    from each set, concatenated in order. */
module CartesianProduct {
  import opened PyStrings

  /** The joined tuples of the product, as a set. */
  function Product(sets: seq<set<string>>): set<string>
  {
    if |sets| == 0 then {""}
    else set x, y | x in sets[0] && y in Product(sets[1..]) :: x + y
  }

  /** `cs` picks one member from each set, in order. */
  predicate IsChoice(cs: seq<string>, sets: seq<set<string>>) {
    |cs| == |sets| && forall i :: 0 <= i < |cs| ==> cs[i] in sets[i]
  }

  /** Every choice of one member per set, joined, is in the product. */
  lemma {:induction false} ProductContains(sets: seq<set<string>>, cs: seq<string>)
    requires IsChoice(cs, sets)
    ensures Join(cs) in Product(sets)
  {
    if |sets| > 0 {
      assert IsChoice(cs[1..], sets[1..]);
      ProductContains(sets[1..], cs[1..]);
      assert cs[0] in sets[0];
    }
  }

  /** Every member of the product is some choice, joined. */
  lemma {:induction false} ProductChoice(sets: seq<set<string>>, r: string)
    requires r in Product(sets)
    ensures exists cs :: IsChoice(cs, sets) && Join(cs) == r
  {
    if |sets| == 0 {
      assert IsChoice([], sets) && Join([]) == r;
    } else {
      var x, y :| x in sets[0] && y in Product(sets[1..]) && r == x + y;
      ProductChoice(sets[1..], y);
      var cs :| IsChoice(cs, sets[1..]) && Join(cs) == y;
      assert IsChoice([x] + cs, sets);
      assert ([x] + cs)[1..] == cs;
      assert Join([x] + cs) == r;
    }
  }

  /** The product of non-empty sets is non-empty. */
  lemma ProductNonEmpty(sets: seq<set<string>>)
    requires forall i :: 0 <= i < |sets| ==> sets[i] != {}
    ensures Product(sets) != {}
  {
    var cs := seq(|sets|, i requires 0 <= i < |sets| => var x :| x in sets[i]; x);
    ProductContains(sets, cs);
  }
}
