/** The few Python string operations the phoneword code relies on, with
    Python's semantics written out: `str.replace`, ASCII `str.upper`,
    clamping slices, `"".join` and substring search. */
module PyStrings {

  /** `x` occurs somewhere inside `s` as a contiguous block. */
  predicate IsSubstring(x: string, s: string) {
    exists i :: 0 <= i <= |s| && x <= s[i..]
  }

  /** `s.replace("-", "")`. */
  function StripHyphens(s: string): (r: string)
    ensures '-' !in r
    ensures |r| <= |s|
    ensures forall c :: c in r ==> c in s
    ensures forall c :: c != '-' ==> multiset(r)[c] == multiset(s)[c]
  {
    if |s| == 0 then []
    else
      assert s == [s[0]] + s[1..];
      (if s[0] == '-' then [] else [s[0]]) + StripHyphens(s[1..])
  }

  /** Stripping hyphens from a string without hyphens changes nothing. */
  lemma {:induction false} StripHyphensNoop(s: string)
    requires '-' !in s
    ensures StripHyphens(s) == s
  {
    if |s| > 0 {
      StripHyphensNoop(s[1..]);
    }
  }

  /** Stripping hyphens works piecewise: it keeps the order of the rest. */
  lemma {:induction false} StripHyphensAppend(a: string, b: string)
    ensures StripHyphens(a + b) == StripHyphens(a) + StripHyphens(b)
  {
    if |a| > 0 {
      assert (a + b)[1..] == a[1..] + b;
      StripHyphensAppend(a[1..], b);
    } else {
      assert a + b == b;
    }
  }

  /** `str.upper` on one character, restricted to ASCII. */
  function UpperChar(c: char): char {
    if 'a' <= c <= 'z' then (c as int - 32) as char else c
  }

  /** `str.upper` with ASCII case mapping: lower-case ASCII letters become
      upper-case, every other character is kept, the length is unchanged. */
  function Upper(s: string): (r: string)
    ensures |r| == |s|
    ensures forall k :: 0 <= k < |s| && !('a' <= s[k] <= 'z') ==> r[k] == s[k]
    ensures forall k :: 0 <= k < |s| && 'a' <= s[k] <= 'z' ==> 'A' <= r[k] <= 'Z'
    ensures forall k :: 0 <= k < |s| && 'a' <= s[k] <= 'z' ==> r[k] as int - 'A' as int == s[k] as int - 'a' as int
    ensures forall k :: 0 <= k < |r| ==> !('a' <= r[k] <= 'z')
  {
    seq(|s|, k requires 0 <= k < |s| => UpperChar(s[k]))
  }

  /** Python's treatment of one slice bound: a negative bound counts from the
      end, and either way the bound is clamped into `0..n`. */
  function SliceBound(i: int, n: nat): (b: nat)
    ensures b <= n
  {
    if i < 0 then (if i + n < 0 then 0 else i + n)
    else if i > n then n
    else i
  }

  /** `s[lo:hi]`: never fails; out-of-range bounds are clamped and an empty
      range gives the empty string. */
  function PySlice(s: string, lo: int, hi: int): (r: string)
    ensures 0 <= lo <= hi <= |s| ==> r == s[lo..hi]
    ensures 0 <= lo <= |s| <= hi ==> r == s[lo..]
    ensures 0 <= |s| <= lo ==> r == []
    ensures IsSubstring(r, s)
  {
    var a := SliceBound(lo, |s|);
    var b := SliceBound(hi, |s|);
    var r := if a < b then s[a..b] else [];
    assert r <= s[a..];
    r
  }

  /** `"".join(parts)`. */
  function Join(parts: seq<string>): (r: string)
    ensures |parts| == 1 ==> r == parts[0]
  {
    if |parts| == 0 then [] else parts[0] + Join(parts[1..])
  }

  /** A character of one part is a character of the joined string. */
  lemma {:induction false} JoinContains(parts: seq<string>, b: nat, c: char)
    requires b < |parts| && c in parts[b]
    ensures c in Join(parts)
  {
    if b > 0 {
      JoinContains(parts[1..], b - 1, c);
    }
  }

  /** `s.replace(target, repl)`: scans left to right and replaces every
      non-overlapping occurrence of `target`; an empty `target` inserts `repl`
      before every character and once at the end, as Python does.  A
      replacement of the same length as the target keeps the length. */
  function ReplaceAll(s: string, target: string, repl: string): (r: string)
    ensures |target| == |repl| ==> |r| == |s|
    decreases |s|
  {
    if |target| == 0 then
      if |s| == 0 then repl else repl + [s[0]] + ReplaceAll(s[1..], target, repl)
    else if target <= s then repl + ReplaceAll(s[|target|..], target, repl)
    else if |s| == 0 then []
    else [s[0]] + ReplaceAll(s[1..], target, repl)
  }

  /** Replacing a string by itself is the identity. */
  lemma {:induction false} ReplaceAllSelf(s: string, target: string)
    ensures ReplaceAll(s, target, target) == s
    decreases |s|
  {
    if |target| == 0 {
      if |s| > 0 {
        var tail := s[1..];
        ReplaceAllSelf(tail, target);
        assert ReplaceAll(s, target, target) == target + [s[0]] + tail;
        assert s == [s[0]] + tail;
      }
    } else if target <= s {
      var tail := s[|target|..];
      ReplaceAllSelf(tail, target);
      assert ReplaceAll(s, target, target) == target + tail;
      assert s == s[..|target|] + tail;
    } else if |s| > 0 {
      var tail := s[1..];
      ReplaceAllSelf(tail, target);
      assert ReplaceAll(s, target, target) == [s[0]] + tail;
      assert s == [s[0]] + tail;
    }
  }

  /** A non-empty target that does not occur leaves the string untouched. */
  lemma {:induction false} ReplaceAllAbsent(s: string, target: string, repl: string)
    requires |target| > 0 && !IsSubstring(target, s)
    ensures ReplaceAll(s, target, repl) == s
    decreases |s|
  {
    if |s| > 0 {
      assert !(target <= s[0..]);
      assert !IsSubstring(target, s[1..]);
      ReplaceAllAbsent(s[1..], target, repl);
      assert s == [s[0]] + s[1..];
    }
  }

  /** `s.find(t)`: where the first occurrence of `t` in `s` starts, or -1
      when there is none. */
  function Find(s: string, t: string): (r: int)
    ensures -1 <= r <= |s|
    ensures r >= 0 ==> t <= s[r..]
    decreases |s|
  {
    if t <= s then (assert s[0..] == s; 0)
    else if |s| == 0 then -1
    else
      var k := Find(s[1..], t);
      if k < 0 then -1 else (assert s[1..][k..] == s[k + 1..]; k + 1)
  }

  /** No occurrence starts before the one `Find` reports, and none at all
      when it reports -1. */
  lemma {:induction false} FindIsFirst(s: string, t: string, j: nat)
    requires j < Find(s, t) || (Find(s, t) < 0 && j <= |s|)
    ensures !(t <= s[j..])
    decreases |s|
  {
    if j == 0 {
      assert s[0..] == s;
    } else {
      assert s[1..][j - 1..] == s[j..];
      FindIsFirst(s[1..], t, j - 1);
    }
  }

  /** A search that does not stop at the first character goes on from the
      second. */
  lemma FindStep(s: string, t: string)
    requires Find(s, t) > 0
    ensures |s| > 0 && !(t <= s[0..]) && Find(s[1..], t) == Find(s, t) - 1
  {
    assert s[0..] == s;
  }

  /** A search that stops at once has found the target at the start. */
  lemma FindZero(s: string, t: string)
    requires Find(s, t) == 0
    ensures t <= s
  {
    assert s[0..] == s;
  }

  /** An occurrence with none before it is the one `Find` reports. */
  lemma {:induction false} FindIs(s: string, t: string, i: nat)
    requires i <= |s| && t <= s[i..]
    requires forall j :: 0 <= j < i ==> !(t <= s[j..])
    ensures Find(s, t) == i
    decreases i
  {
    assert s[0..] == s;
    if i > 0 {
      NoOccurrenceShift(s, t, i);
      assert s[1..][i - 1..] == s[i..];
      FindIs(s[1..], t, i - 1);
    }
  }

  /** Replacement at the first occurrence of a non-empty target: the part
      before it is copied, the occurrence becomes `repl`, and the scan
      resumes right after it.  With `ReplaceAllAbsent` this fixes the result
      of every replacement. */
  lemma {:induction false} ReplaceAllAtFind(s: string, target: string, repl: string, i: nat)
    requires |target| > 0 && Find(s, target) == i
    ensures ReplaceAll(s, target, repl) == s[..i] + repl + ReplaceAll(s[i + |target|..], target, repl)
    decreases |s|
  {
    if i == 0 {
      FindZero(s, target);
      ReplaceAllAtZero(s, target, repl, i);
    } else {
      FindStep(s, target);
      var tail, j := s[1..], i - 1;
      ReplaceAllAtFind(tail, target, repl, j);
      ReplaceAllAfterSkip(s, target, repl, i, tail, j);
    }
  }

  /** The case of `ReplaceAllAtFind` where the first occurrence is at the
      start, stated in the same form. */
  lemma ReplaceAllAtZero(s: string, target: string, repl: string, i: nat)
    requires |target| > 0 && i == 0 && target <= s
    ensures ReplaceAll(s, target, repl) == s[..i] + repl + ReplaceAll(s[i + |target|..], target, repl)
  {
    ReplaceAllAtStart(s, target, repl);
    EmptyPrefix(s, repl, i);
    DropShift(s, i, |target|);
    var rest0 := ReplaceAll(s[|target|..], target, repl);
    var rest := ReplaceAll(s[i + |target|..], target, repl);
    assert rest == rest0;
    assert s[..i] + repl + rest == repl + rest0;
  }

  /** The step of `ReplaceAllAtFind` past a first character the search
      skipped, stated with `Find` so that its premise is the recursive
      call's conclusion as written. */
  lemma ReplaceAllAfterSkip(s: string, target: string, repl: string, i: nat, tail: string, j: nat)
    requires |target| > 0 && 0 < i && Find(s, target) == i && tail == s[1..] && j == i - 1
    requires ReplaceAll(tail, target, repl) == tail[..j] + repl + ReplaceAll(tail[j + |target|..], target, repl)
    ensures ReplaceAll(s, target, repl) == s[..i] + repl + ReplaceAll(s[i + |target|..], target, repl)
  {
    FindStep(s, target);
    ReplaceAllStep(s, target, repl, i, tail, j);
  }

  /** The same, with the first occurrence described directly. */
  lemma ReplaceAllFirst(s: string, target: string, repl: string, i: nat)
    requires |target| > 0 && i <= |s| && target <= s[i..]
    requires forall j :: 0 <= j < i ==> !(target <= s[j..])
    ensures ReplaceAll(s, target, repl) == s[..i] + repl + ReplaceAll(s[i + |target|..], target, repl)
  {
    FindIs(s, target, i);
    ReplaceAllAtFind(s, target, repl, i);
  }

  /** An occurrence at the very start is replaced at once. */
  lemma ReplaceAllAtStart(s: string, target: string, repl: string)
    requires |target| > 0 && target <= s
    ensures ReplaceAll(s, target, repl) == repl + ReplaceAll(s[|target|..], target, repl)
  {
  }

  /** Restates an equation with an empty prefix at position `i == 0`. */
  lemma EmptyPrefix(s: string, x: string, i: nat)
    requires i == 0
    ensures s[..i] + x == x
  {
    assert s[..i] == [];
  }

  /** Dropping `i + n` characters with `i == 0` drops `n`. */
  lemma DropShift(s: string, i: nat, n: nat)
    requires i == 0 && n <= |s|
    ensures s[i + n..] == s[n..]
  {
  }

  /** One step of the scan before the first occurrence, as an equation
      between the results for `s` and for `s[1..]`. */
  lemma ReplaceAllStep(s: string, target: string, repl: string, i: nat, tail: string, j: nat)
    requires |target| > 0 && 0 < i <= |s| && target <= s[i..] && !(target <= s[0..])
    requires tail == s[1..] && j == i - 1
    requires ReplaceAll(tail, target, repl) == tail[..j] + repl + ReplaceAll(tail[j + |target|..], target, repl)
    ensures ReplaceAll(s, target, repl) == s[..i] + repl + ReplaceAll(s[i + |target|..], target, repl)
  {
    ReplaceAllSkip(s, target, repl);
    TakeAfterFirst(s, tail, i, j);
    DropAfterFirst(s, tail, i + |target|, j + |target|);
    var suffixOfTail, suffix := tail[j + |target|..], s[i + |target|..];
    assert suffixOfTail == suffix;
    var rest := ReplaceAll(suffix, target, repl);
    assert ReplaceAll(suffixOfTail, target, repl) == rest;
    var whole := ReplaceAll(tail, target, repl);
    assert ReplaceAll(s, target, repl) == [s[0]] + whole;
    assert whole == tail[..j] + repl + rest;
    AppendAssoc([s[0]], tail[..j], repl, rest);
  }

  /** Dropping the first character, then `m = n - 1` more, drops `n`. */
  lemma DropAfterFirst(s: string, tail: string, n: nat, m: nat)
    requires 1 <= n <= |s| && tail == s[1..] && m == n - 1
    ensures tail[m..] == s[n..]
  {
  }

  /** The first `n` characters are the first one and `m = n - 1` after it. */
  lemma TakeAfterFirst(s: string, tail: string, n: nat, m: nat)
    requires 0 < n <= |s| && tail == s[1..] && m == n - 1
    ensures s[..n] == [s[0]] + tail[..m]
  {
  }

  /** Concatenation regrouped. */
  lemma AppendAssoc(a: string, b: string, c: string, d: string)
    ensures a + (b + c + d) == (a + b) + c + d
  {
  }

  /** A string the target does not start: its first character is copied. */
  lemma ReplaceAllSkip(s: string, target: string, repl: string)
    requires |target| > 0 && |s| > 0 && !(target <= s[0..])
    ensures ReplaceAll(s, target, repl) == [s[0]] + ReplaceAll(s[1..], target, repl)
  {
    assert s[0..] == s;
  }

  /** No occurrence before `i` in `s` means none before `i - 1` in `s[1..]`. */
  lemma NoOccurrenceShift(s: string, target: string, i: nat)
    requires 0 < i <= |s|
    requires forall j :: 0 <= j < i ==> !(target <= s[j..])
    ensures forall j :: 0 <= j < i - 1 ==> !(target <= s[1..][j..])
  {
    forall j | 0 <= j < i - 1
      ensures !(target <= s[1..][j..])
    {
      assert s[1..][j..] == s[j + 1..];
    }
  }
}
