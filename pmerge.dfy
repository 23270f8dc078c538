/**
  PmergeMe: argument validation and the Ford-Johnson (merge-insertion) sort.

  The program sorts a list of distinct positive integers given on the command
  line. The sort pairs consecutive elements, sorts the larger element of each
  pair recursively, rebuilds the pairs in that order, and inserts the smaller
  elements into the chain of larger ones with a binary search bounded by each
  element's partner. The C++ code has a vector version and a deque version
  that are the same line for line; both are modelled by the one algorithm
  below over `seq<int>`.
 */
module PmergeMe {
  import opened Wrappers
  import opened Chars

  /** `INT_MAX` of a 32-bit `int`. */
  const INT_MAX: int := 0x7fff_ffff

  // ---------------------------------------------------------------------------
  // Argument validation
  // ---------------------------------------------------------------------------

  /** A token that `IsPositiveInteger` accepts: non-empty, all digits, no leading '0'. */
  predicate PositiveIntegerText(s: string) {
    |s| > 0 && AllDigits(s) && s[0] != '0'
  }

  /** Scans the token and rejects the empty string, a non-digit and a leading '0'. */
  method IsPositiveInteger(s: string) returns (ok: bool)
    ensures ok <==> |s| > 0 && (forall i :: 0 <= i < |s| ==> IsDigit(s[i])) && s[0] != '0'
  {
    if |s| == 0 {
      return false;
    }
    var i := 0;
    while i < |s|
      invariant 0 <= i <= |s|
      invariant forall k :: 0 <= k < i ==> IsDigit(s[k])
    {
      if !IsDigit(s[i]) {
        return false;
      }
      i := i + 1;
    }
    if s[0] == '0' {
      return false;
    }
    return true;
  }

  /**
    The overflow-safe accumulation of a digit string into an `int`: before
    each step `val * 10 + digit` it checks `val > (INT_MAX - digit) / 10` and
    fails if so. It fails exactly when the value exceeds `INT_MAX`.
   */
  method AccumulateDigits(s: string) returns (fits: bool, val: int)
    requires AllDigits(s)
    ensures fits <==> DecimalValue(s) <= INT_MAX
    ensures fits ==> val == DecimalValue(s)
  {
    val := 0;
    for p := 0 to |s|
      invariant val == DecimalValue(s[..p]) <= INT_MAX
    {
      var digit := DigitValue(s[p]);
      DecimalValueSnoc(s, p);
      if val > (INT_MAX - digit) / 10 {
        PrefixValueAtMost(s, p + 1);
        return false, 0;
      }
      val := val * 10 + digit;
    }
    assert s[..|s|] == s;
    return true, val;
  }

  /**
    The checks `ParseArgs` makes on one token: positive-integer text, then the
    overflow-safe accumulation, then `val <= 0`. That last rejection cannot fire,
    since a digit string without a leading '0' is positive.
   */
  method ParseToken(s: string) returns (r: Option<int>)
    ensures r.Some? <==> ValidToken(s)
    ensures r.Some? ==> r.value == DecimalValue(s) && 0 < r.value <= INT_MAX
  {
    var ok := IsPositiveInteger(s);
    if !ok {
      return None;
    }
    var fits, val := AccumulateDigits(s);
    if !fits {
      return None;
    }
    LeadingNonZeroIsPositive(s);
    assert val > 0;
    return Some(val);
  }

  /**
    The argument lists `ParseArgs` accepts: at least one argument; every token
    a positive integer whose value fits an `int` and is positive; no value equal
    to an earlier one.
   */
  ghost predicate AcceptedArgs(args: seq<string>) {
    && |args| > 0
    && (forall i :: 0 <= i < |args| ==> ValidToken(args[i]))
    && (forall i, j :: 0 <= j < i < |args| ==> DecimalValue(args[j]) != DecimalValue(args[i]))
  }

  /**
    Parses the command-line arguments `args` (argv without the program name).
    Every rejection throws the same "Error".
   */
  method ParseArgs(args: seq<string>) returns (r: Result<seq<int>, string>)
    ensures r.Success? <==> AcceptedArgs(args)
    ensures r.Success? ==> |r.value| == |args|
    ensures r.Success? ==> forall i :: 0 <= i < |args| ==>
              PositiveIntegerText(args[i]) && r.value[i] == DecimalValue(args[i])
    ensures r.Success? ==> forall i :: 0 <= i < |args| ==> 0 < r.value[i] <= INT_MAX
    ensures r.Success? ==> Distinct(r.value)
  {
    if |args| == 0 {
      return Failure("Error");
    }
    var out: seq<int> := [];
    var seen: set<int> := {};
    for i := 0 to |args|
      invariant |out| == i
      invariant forall k :: 0 <= k < i ==> ValidToken(args[k]) && out[k] == DecimalValue(args[k])
      invariant forall k, j :: 0 <= j < k < i ==> out[j] != out[k]
      invariant forall x :: x in seen <==> x in out
    {
      var tok := ParseToken(args[i]);
      if tok.None? {
        RejectToken(args, i);
        return Failure("Error");
      }
      var val := tok.value;
      if val in seen {
        var j :| 0 <= j < i && out[j] == val;
        RejectRepeat(args, j, i);
        return Failure("Error");
      }
      seen := seen + {val};
      out := out + [val];
    }
    DistinctByIndex(out);
    return Success(out);
  }

  /** A token `ParseArgs` lets through. */
  ghost predicate ValidToken(s: string) {
    PositiveIntegerText(s) && 0 < DecimalValue(s) <= INT_MAX
  }

  /** One bad token rejects the whole argument list. */
  lemma RejectToken(args: seq<string>, i: nat)
    requires i < |args| && !ValidToken(args[i])
    ensures !AcceptedArgs(args)
  {
  }

  /** One repeated value rejects the whole argument list. */
  lemma RejectRepeat(args: seq<string>, j: nat, i: nat)
    requires j < i < |args| && ValidToken(args[i]) && ValidToken(args[j])
    requires DecimalValue(args[j]) == DecimalValue(args[i])
    ensures !AcceptedArgs(args)
  {
  }

  // ---------------------------------------------------------------------------
  // Sequences, multisets and pairs
  // ---------------------------------------------------------------------------

  /** Strictly increasing: sorted, with no value twice. */
  predicate Increasing(s: seq<int>) {
    forall i, j :: 0 <= i < j < |s| ==> s[i] < s[j]
  }

  /** No value occurs more than once in the multiset. */
  predicate NoRepeats(m: multiset<int>) {
    forall x | x in m :: m[x] <= 1
  }

  /** No value occurs twice in the sequence. */
  predicate Distinct(s: seq<int>) {
    NoRepeats(multiset(s))
  }

  /** A value present in a multiset without repeats occurs once. */
  lemma NoRepeatsAt(m: multiset<int>, x: int)
    requires NoRepeats(m) && x in m
    ensures m[x] == 1
  {
  }

  /** Two positions of a sequence without repeated values hold different values. */
  lemma DistinctAt(s: seq<int>, i: nat, j: nat)
    requires Distinct(s) && i < j < |s|
    ensures s[i] != s[j]
  {
    assert s == s[..j] + [s[j]] + s[j + 1..];
    assert multiset(s) == multiset(s[..j]) + multiset{s[j]} + multiset(s[j + 1..]);
    NoRepeatsAt(multiset(s), s[j]);
    assert s[j] !in multiset(s[..j]);
    assert s[i] in s[..j];
  }

  /** Pairwise different elements have no repeated value. */
  lemma {:induction false} DistinctByIndex(s: seq<int>)
    requires forall i, j :: 0 <= j < i < |s| ==> s[j] != s[i]
    ensures Distinct(s)
    decreases |s|
  {
    if |s| > 0 {
      var t := s[..|s| - 1];
      DistinctByIndex(t);
      assert s == t + [s[|s| - 1]];
      assert s[|s| - 1] !in multiset(t);
    }
  }

  /** `PairV{big, small, used}`: one pair of the input, its larger and its smaller element. */
  datatype Pair = Pair(big: int, small: int, used: bool)

  function Bigs(pairs: seq<Pair>): (r: seq<int>)
    ensures |r| == |pairs| && forall i :: 0 <= i < |pairs| ==> r[i] == pairs[i].big
  {
    seq(|pairs|, i requires 0 <= i < |pairs| => pairs[i].big)
  }

  function Smalls(pairs: seq<Pair>): (r: seq<int>)
    ensures |r| == |pairs| && forall i :: 0 <= i < |pairs| ==> r[i] == pairs[i].small
  {
    seq(|pairs|, i requires 0 <= i < |pairs| => pairs[i].small)
  }

  /** All values held by the pairs, larger and smaller ones. */
  function Elems(pairs: seq<Pair>): multiset<int> {
    multiset(Bigs(pairs)) + multiset(Smalls(pairs))
  }

  lemma ElemsAppend(a: seq<Pair>, b: seq<Pair>)
    ensures Elems(a + b) == Elems(a) + Elems(b)
  {
    assert Bigs(a + b) == Bigs(a) + Bigs(b);
    assert Smalls(a + b) == Smalls(a) + Smalls(b);
  }

  /** Taking the first element of `x` out of `x` and out of a permutation `y` of it leaves permutations. */
  lemma PermutationRemove<T>(x: seq<T>, y: seq<T>, k: nat)
    requires multiset(x) == multiset(y) && 0 < |x| && k < |y| && y[k] == x[0]
    ensures multiset(x[1..]) == multiset(y[..k] + y[k + 1..])
  {
    assert x == [x[0]] + x[1..];
    assert y == y[..k] + [y[k]] + y[k + 1..];
    assert multiset(x[1..]) == multiset(x) - multiset{x[0]};
    assert multiset(y) == multiset(y[..k]) + multiset{y[k]} + multiset(y[k + 1..]);
  }

  /** Removing the pair at position `k` removes its two values. */
  lemma ElemsRemove(y: seq<Pair>, k: nat)
    requires k < |y|
    ensures Elems(y) == Elems(y[..k] + y[k + 1..]) + Elems([y[k]])
  {
    assert y == y[..k] + [y[k]] + y[k + 1..];
    ElemsAppend(y[..k] + [y[k]], y[k + 1..]);
    ElemsAppend(y[..k], [y[k]]);
    ElemsAppend(y[..k], y[k + 1..]);
  }

  /** The values of the pairs depend only on which pairs there are, not on their order. */
  lemma {:induction false} ElemsOfPermutation(x: seq<Pair>, y: seq<Pair>)
    requires multiset(x) == multiset(y)
    ensures Elems(x) == Elems(y)
    decreases |x|
  {
    if |x| == 0 {
      assert y == [];
    } else {
      assert x[0] in multiset(y);
      var k :| 0 <= k < |y| && y[k] == x[0];
      PermutationRemove(x, y, k);
      ElemsOfPermutation(x[1..], y[..k] + y[k + 1..]);
      ElemsAppend([x[0]], x[1..]);
      assert x == [x[0]] + x[1..];
      ElemsRemove(y, k);
    }
  }

  // ---------------------------------------------------------------------------
  // Pairing
  // ---------------------------------------------------------------------------

  /** The pair of `a` and `b`: the larger as `big`, `a` on a tie; not yet used. */
  function MakePair(a: int, b: int): (pr: Pair)
    ensures pr.small <= pr.big && !pr.used
    ensures pr.big == a || pr.big == b
  {
    if a >= b then Pair(a, b, false) else Pair(b, a, false)
  }

  /** A pair holds exactly the two values it was made from. */
  lemma MakePairElems(a: int, b: int)
    ensures Elems([MakePair(a, b)]) == multiset{a, b}
  {
    var pr := MakePair(a, b);
    assert Bigs([pr]) == [pr.big] && Smalls([pr]) == [pr.small];
  }

  /** Adding the pair of `v[2i]` and `v[2i+1]` adds those two values. */
  lemma PairStep(v: seq<int>, i: nat, pairs: seq<Pair>)
    requires 2 * i + 1 < |v|
    requires Elems(pairs) == multiset(v[..2 * i])
    ensures Elems(pairs + [MakePair(v[2 * i], v[2 * i + 1])]) == multiset(v[..2 * i + 2])
  {
    ElemsAppend(pairs, [MakePair(v[2 * i], v[2 * i + 1])]);
    MakePairElems(v[2 * i], v[2 * i + 1]);
    assert v[..2 * i + 2] == v[..2 * i] + [v[2 * i], v[2 * i + 1]];
  }

  /** The pairs of the first `2 |pairs|` elements hold exactly those elements. */
  lemma {:induction false} PairsElems(v: seq<int>, pairs: seq<Pair>)
    requires 2 * |pairs| <= |v|
    requires forall k :: 0 <= k < |pairs| ==> pairs[k] == MakePair(v[2 * k], v[2 * k + 1])
    ensures Elems(pairs) == multiset(v[..2 * |pairs|])
    decreases |pairs|
  {
    if |pairs| == 0 {
      assert Bigs(pairs) == [] && Smalls(pairs) == [] && v[..0] == [];
    } else {
      var m := |pairs| - 1;
      PairsElems(v, pairs[..m]);
      assert pairs == pairs[..m] + [MakePair(v[2 * m], v[2 * m + 1])];
      PairStep(v, m, pairs[..m]);
    }
  }

  /**
    Pairs `v[2i]` with `v[2i+1]` and sets the odd last element aside as the
    straggler. When there is no straggler, `straggler` keeps the caller's
    initial value 0.
   */
  method BuildPairs(v: seq<int>) returns (pairs: seq<Pair>, hasStraggler: bool, straggler: int)
    ensures hasStraggler <==> |v| % 2 != 0
    ensures hasStraggler ==> straggler == v[|v| - 1]
    ensures |pairs| == |v| / 2
    ensures forall i :: 0 <= i < |pairs| ==> pairs[i] == MakePair(v[2 * i], v[2 * i + 1])
    ensures forall i :: 0 <= i < |pairs| ==> pairs[i].small <= pairs[i].big && !pairs[i].used
    ensures Elems(pairs) + (if hasStraggler then multiset{straggler} else multiset{}) == multiset(v)
  {
    hasStraggler := |v| % 2 != 0;
    straggler := 0;
    if hasStraggler {
      straggler := v[|v| - 1];
    }
    var nPairs := |v| / 2;
    assert 2 * nPairs <= |v| <= 2 * nPairs + 1;
    assert hasStraggler <==> |v| == 2 * nPairs + 1;
    pairs := [];
    for i := 0 to nPairs
      invariant |pairs| == i
      invariant forall k :: 0 <= k < i ==> pairs[k] == MakePair(v[2 * k], v[2 * k + 1])
    {
      var a, b := v[2 * i], v[2 * i + 1];
      var pr := MakePair(a, b);
      pairs := pairs + [pr];
    }
    PairsElems(v, pairs);
    if hasStraggler {
      assert v == v[..2 * nPairs] + [v[|v| - 1]];
    } else {
      assert v == v[..2 * nPairs];
    }
  }

  // ---------------------------------------------------------------------------
  // Bounded binary insertion
  // ---------------------------------------------------------------------------

  /** `std::lower_bound(s.begin(), s.begin() + hi, x)`: the first position in `[0, hi)` whose element is not below `x`. */
  method LowerBound(s: seq<int>, hi: nat, x: int) returns (p: nat)
    requires hi <= |s| && Increasing(s)
    ensures p <= hi
    ensures forall i :: 0 <= i < p ==> s[i] < x
    ensures forall i :: p <= i < hi ==> x <= s[i]
  {
    var lo, h := 0, hi;
    while lo < h
      invariant 0 <= lo <= h <= hi
      invariant forall i :: 0 <= i < lo ==> s[i] < x
      invariant forall i :: h <= i < hi ==> x <= s[i]
    {
      var mid := lo + (h - lo) / 2;
      if s[mid] < x {
        lo := mid + 1;
      } else {
        h := mid;
      }
    }
    return lo;
  }

  /** Inserting a new value `x` at a position between smaller and larger elements keeps a chain increasing. */
  lemma InsertKeepsIncreasing(chain: seq<int>, p: nat, x: int)
    requires Increasing(chain) && p <= |chain|
    requires forall i :: 0 <= i < p ==> chain[i] < x
    requires forall i :: p <= i < |chain| ==> x < chain[i]
    ensures Increasing(chain[..p] + [x] + chain[p..])
  {
    var r := chain[..p] + [x] + chain[p..];
    forall i, j | 0 <= i < j < |r|
      ensures r[i] < r[j]
    {
      if j < p {
        assert r[i] == chain[i] && r[j] == chain[j];
      } else if j == p {
        assert r[i] == chain[i];
      } else if i < p {
        assert r[i] == chain[i] && r[j] == chain[j - 1];
      } else if i == p {
        assert r[j] == chain[j - 1];
      } else {
        assert r[i] == chain[i - 1] && r[j] == chain[j - 1];
      }
    }
  }

  /**
    Inserts `value` into the increasing `chain` at its lower-bound position,
    searching only the part of the chain in front of `bound`'s lower bound.
    When `value` is new and not above `bound`, the chain stays increasing.
   */
  method BoundedInsert(chain: seq<int>, value: int, bound: int) returns (r: seq<int>)
    requires Increasing(chain)
    ensures exists p :: 0 <= p <= |chain| && r == chain[..p] + [value] + chain[p..] &&
              (forall i :: 0 <= i < p ==> chain[i] < value && chain[i] < bound) &&
              (forall i :: p <= i < |chain| ==> value <= chain[i] || bound <= chain[i])
    ensures multiset(r) == multiset(chain) + multiset{value}
    ensures value !in chain && value <= bound ==> Increasing(r)
  {
    var boundPos := LowerBound(chain, |chain|, bound);
    var pos := LowerBound(chain, boundPos, value);
    r := chain[..pos] + [value] + chain[pos..];
    assert chain == chain[..pos] + chain[pos..];
    if value !in chain && value <= bound {
      forall i | pos <= i < |chain|
        ensures value < chain[i]
      {
        assert chain[i] != value;
      }
      InsertKeepsIncreasing(chain, pos, value);
    }
  }

  // ---------------------------------------------------------------------------
  // Realignment of the pairs with the sorted larger elements
  // ---------------------------------------------------------------------------

  predicate AllUnused(pairs: seq<Pair>) {
    forall i :: 0 <= i < |pairs| ==> !pairs[i].used
  }

  /**
    For each value of `bigs` in order, takes the first pair not yet used whose
    larger element is that value, and marks it used; afterwards clears every
    mark. When `bigs` is a rearrangement of the pairs' distinct larger
    elements, the result is the same pairs ordered as `bigs`.
   */
  method ReorderPairsByBigs(pairs: seq<Pair>, bigs: seq<int>) returns (r: seq<Pair>)
    ensures AllUnused(r)
    ensures |r| <= |bigs|
    ensures forall k :: 0 <= k < |r| ==> r[k] in pairs
    ensures AllUnused(pairs) && Distinct(bigs) && multiset(bigs) == multiset(Bigs(pairs)) ==>
              Bigs(r) == bigs && multiset(r) == multiset(pairs)
  {
    ghost var cond := AllUnused(pairs) && Distinct(bigs) && multiset(bigs) == multiset(Bigs(pairs));
    var work := pairs;
    var ordered: seq<Pair> := [];
    // the pairs not yet taken
    ghost var rest := multiset(pairs);
    for i := 0 to |bigs|
      invariant Realigning(pairs, bigs, cond, i, work, ordered, rest)
    {
      var target := bigs[i];
      var j := FindUnused(work, target);
      RealignStep(pairs, bigs, cond, i, work, ordered, rest, j);
      if j < |work| {
        ordered := ordered + [work[j]];
        rest := rest - multiset{pairs[j]};
        work := work[j := work[j].(used := true)];
      }
    }
    if cond {
      RealignedAll(pairs, bigs, ordered, rest);
    }
    // pairs.swap(ordered), then clear every mark
    r := ClearMarks(ordered);
  }

  /**
    The state of the realignment after `i` targets: `work` is `pairs` with
    some marks set, `ordered` holds unmarked copies of pairs, and, when `bigs`
    is a rearrangement of the pairs' distinct larger elements, `ordered`
    matches the first `i` targets, only pairs with those larger elements are
    marked, and `rest` holds the pairs not taken.
   */
  ghost predicate Realigning(pairs: seq<Pair>, bigs: seq<int>, cond: bool, i: nat,
                             work: seq<Pair>, ordered: seq<Pair>, rest: multiset<Pair>) {
    && i <= |bigs|
    && (cond <==> AllUnused(pairs) && Distinct(bigs) && multiset(bigs) == multiset(Bigs(pairs)))
    && |work| == |pairs|
    && (forall j :: 0 <= j < |work| ==> work[j].big == pairs[j].big)
    && (forall j :: 0 <= j < |work| && !work[j].used ==> work[j] == pairs[j])
    && (forall k :: 0 <= k < |ordered| ==> ordered[k] in pairs && !ordered[k].used)
    && |ordered| <= i
    && (cond ==> Bigs(ordered) == bigs[..i])
    && (cond ==> forall j :: 0 <= j < |work| && work[j].used ==> work[j].big in bigs[..i])
    && (cond ==> multiset(ordered) + rest == multiset(pairs))
  }

  /** One step of the realignment: taking the pair found for `bigs[i]`, if any. */
  lemma RealignStep(pairs: seq<Pair>, bigs: seq<int>, cond: bool, i: nat,
                    work: seq<Pair>, ordered: seq<Pair>, rest: multiset<Pair>, j: nat)
    requires i < |bigs| && Realigning(pairs, bigs, cond, i, work, ordered, rest)
    requires j <= |work|
    requires j < |work| ==> !work[j].used && work[j].big == bigs[i]
    requires forall k :: 0 <= k < j ==> work[k].used || work[k].big != bigs[i]
    ensures j < |work| ==>
              Realigning(pairs, bigs, cond, i + 1, work[j := work[j].(used := true)],
                         ordered + [work[j]], rest - multiset{pairs[j]})
    ensures j == |work| ==> Realigning(pairs, bigs, cond, i + 1, work, ordered, rest)
  {
    if cond {
      TargetIsFresh(bigs, i);
      TargetAvailable(pairs, work, bigs, i);
      assert bigs[..i + 1] == bigs[..i] + [bigs[i]];
    }
    if j < |work| {
      var work', ordered' := work[j := work[j].(used := true)], ordered + [work[j]];
      if cond {
        TargetNotTaken(pairs, bigs, i, ordered, j);
        assert pairs[j] in multiset(pairs);
        assert Bigs(ordered') == Bigs(ordered) + [bigs[i]];
      }
    }
  }

  /** Once every target is placed, nothing is left over. */
  lemma RealignedAll(pairs: seq<Pair>, bigs: seq<int>, ordered: seq<Pair>, rest: multiset<Pair>)
    requires multiset(bigs) == multiset(Bigs(pairs))
    requires Bigs(ordered) == bigs[..|bigs|]
    requires multiset(ordered) + rest == multiset(pairs)
    ensures multiset(ordered) == multiset(pairs) && Bigs(ordered) == bigs
  {
    assert |bigs| == |pairs| by {
      assert |multiset(bigs)| == |multiset(Bigs(pairs))|;
    }
    assert bigs[..|bigs|] == bigs;
    assert |ordered| == |Bigs(ordered)| == |pairs|;
    assert |multiset(ordered) + rest| == |multiset(ordered)| + |rest|;
    assert |rest| == 0;
  }

  /** The loop that resets every `used` flag. */
  method ClearMarks(ps: seq<Pair>) returns (r: seq<Pair>)
    ensures AllUnused(r) && |r| == |ps|
    ensures forall k :: 0 <= k < |r| ==> r[k] == ps[k].(used := false)
    ensures AllUnused(ps) ==> r == ps
  {
    r := ps;
    for i := 0 to |r|
      invariant |r| == |ps|
      invariant forall k :: 0 <= k < i ==> r[k] == ps[k].(used := false)
      invariant forall k :: i <= k < |r| ==> r[k] == ps[k]
    {
      r := r[i := r[i].(used := false)];
    }
    if AllUnused(ps) {
      assert forall k :: 0 <= k < |r| ==> r[k] == ps[k];
    }
  }

  /** The inner search of the realignment: the first pair not yet used whose larger element is `target`, or `|work|`. */
  method FindUnused(work: seq<Pair>, target: int) returns (j: nat)
    ensures j <= |work|
    ensures j < |work| ==> !work[j].used && work[j].big == target
    ensures forall k :: 0 <= k < j ==> work[k].used || work[k].big != target
  {
    j := 0;
    while j < |work|
      invariant j <= |work|
      invariant forall k :: 0 <= k < j ==> work[k].used || work[k].big != target
    {
      if !work[j].used && work[j].big == target {
        return;
      }
      j := j + 1;
    }
  }

  /** The pair found for target `bigs[i]` is not among those already placed. */
  lemma TargetNotTaken(pairs: seq<Pair>, bigs: seq<int>, i: nat, ordered: seq<Pair>, j: nat)
    requires i < |bigs| && j < |pairs| && bigs[i] !in bigs[..i]
    requires pairs[j].big == bigs[i] && Bigs(ordered) == bigs[..i]
    ensures pairs[j] !in multiset(ordered)
  {
    forall k | 0 <= k < |ordered| ensures ordered[k] != pairs[j] {
      assert ordered[k].big == Bigs(ordered)[k] == bigs[k];
    }
  }

  /** While realigning, the pair whose larger element is the next target has not been taken yet. */
  lemma TargetAvailable(pairs: seq<Pair>, work: seq<Pair>, bigs: seq<int>, i: nat)
    requires i < |bigs| && |work| == |pairs|
    requires multiset(bigs) == multiset(Bigs(pairs))
    requires bigs[i] !in bigs[..i]
    requires forall j :: 0 <= j < |work| ==> work[j].big == pairs[j].big
    requires forall j :: 0 <= j < |work| && work[j].used ==> work[j].big in bigs[..i]
    ensures exists j :: 0 <= j < |work| && !work[j].used && work[j].big == bigs[i]
  {
    assert bigs[i] in multiset(Bigs(pairs));
    var j :| 0 <= j < |pairs| && Bigs(pairs)[j] == bigs[i];
    assert !work[j].used && work[j].big == bigs[i];
  }

  /** The value at position `i` of a sequence without repeats is not among the values before it. */
  lemma TargetIsFresh(bigs: seq<int>, i: nat)
    requires Distinct(bigs) && i < |bigs|
    ensures bigs[i] !in bigs[..i]
  {
    if bigs[i] in bigs[..i] {
      var k :| 0 <= k < i && bigs[k] == bigs[i];
      DistinctAt(bigs, k, i);
    }
  }

  // ---------------------------------------------------------------------------
  // Insertion schedule
  // ---------------------------------------------------------------------------

  /** The indices `hi, hi - 1, ..., lo`; empty when `hi < lo`. */
  function Descending(hi: int, lo: nat): (r: seq<nat>)
    ensures |r| == if hi < lo then 0 else hi - lo + 1
    ensures forall k :: 0 <= k < |r| ==> r[k] == hi - k
    decreases hi - lo
  {
    if hi < lo then [] else [hi as nat] + Descending(hi - 1, lo)
  }

  /**
    The window loop of the schedule: index 0, then for each Jacobsthal number
    `J[k] < n` (k >= 2) the indices of the window `(J[k-1], J[k]]` that are
    below `n`, highest first. Every index it emits after the first lies in such
    a window, so a `J` that stops growing after `J[1]` emits only index 0.
   */
  method WindowPass(J: seq<nat>, n: nat) returns (order: seq<nat>)
    requires |J| >= 2
    ensures |order| >= 1 && order[0] == 0
    ensures forall t :: 1 <= t < |order| ==>
              order[t] < n && exists k :: 2 <= k < |J| && J[k - 1] < order[t] <= J[k]
    ensures (forall k :: 2 <= k < |J| ==> J[k] <= J[k - 1]) ==> order == [0]
  {
    order := [0];
    var k := 2;
    while k < |J| && J[k] < n
      invariant 2 <= k <= |J|
      invariant |order| >= 1 && order[0] == 0
      invariant forall t :: 1 <= t < |order| ==>
                  order[t] < n && exists k' :: 2 <= k' < k && J[k' - 1] < order[t] <= J[k']
      invariant (forall k' :: 2 <= k' < |J| ==> J[k'] <= J[k' - 1]) ==> order == [0]
    {
      var hi: int := J[k];
      var lo: int := J[k - 1] + 1;
      if hi >= n {
        hi := n - 1;
      }
      if lo >= n {
        k := k + 1;
        continue;
      }
      var idx := hi;
      while idx >= lo
        invariant idx <= hi
        invariant |order| >= 1 && order[0] == 0
        invariant forall t :: 1 <= t < |order| ==>
                    order[t] < n && exists k' :: 2 <= k' <= k && J[k' - 1] < order[t] <= J[k']
        invariant (forall k' :: 2 <= k' < |J| ==> J[k'] <= J[k' - 1]) ==> order == [0]
      {
        order := order + [idx as nat];
        if idx == lo {
          break;
        }
        idx := idx - 1;
      }
      k := k + 1;
    }
  }

  /**
    The generation loop of the schedule: Jacobsthal numbers J(k+1) = J(k) +
    2 J(k-1) from 0, 1, until one reaches `n` or two consecutive ones are
    equal. Since J(2) = 1 + 2 * 0 = J(1), it always stops after one step.
   */
  method JacobsthalNumbers(n: nat) returns (J: seq<nat>)
    requires n >= 2
    ensures J == [0, 1, 1]
  {
    J := [0, 1];
    var stopped := false;
    while !stopped && J[|J| - 1] < n
      invariant (J == [0, 1] && !stopped) || (J == [0, 1, 1] && stopped)
      decreases if stopped then 0 else 1
    {
      var a, b := J[|J| - 1], J[|J| - 2];
      J := J + [a + 2 * b];
      if J[|J| - 1] == J[|J| - 2] {
        stopped := true;
      }
    }
  }

  /**
    `jacobsthalOrder(n)`: the order in which the smaller elements of `n` pairs
    are inserted. The generation loop stops as soon as two consecutive numbers
    are equal, which happens at once because J(2) = J(1) = 1; so `J` is always
    `[0, 1, 1]`, the window loop adds nothing, and the schedule is index 0
    followed by `n-1` down to 2. Index 1 is never scheduled.
   */
  method JacobsthalOrder(n: nat) returns (order: seq<nat>)
    ensures order == Schedule(n)
  {
    if n == 0 {
      return [];
    }
    if n == 1 {
      return [0];
    }
    var J := JacobsthalNumbers(n);
    order := WindowPass(J, n);
    var lastJ := if |J| >= 2 then J[|J| - 2] else 1;
    var start := n - 1;
    var end := lastJ + 1;
    if end < n {
      var idx: int := start;
      while idx >= end
        invariant end <= idx <= start
        invariant order == [0] + Descending(start, idx + 1)
      {
        assert idx !in order by {
          DescendingBelow(start, idx + 1, idx);
        }
        if idx !in order {
          order := order + [idx as nat];
        }
        DescendingExtend(start, idx);
        if idx == end {
          break;
        }
        idx := idx - 1;
      }
    }
  }

  /** The insertion schedule the code produces for `n` pairs: `0, n-1, n-2, ..., 2`. */
  function Schedule(n: nat): seq<nat> {
    if n == 0 then [] else [0] + Descending(n - 1, 2)
  }

  /** Extending the run `hi, ..., lo + 1` downwards by `lo`. */
  lemma {:induction false} DescendingExtend(hi: int, lo: nat)
    requires lo <= hi
    ensures Descending(hi, lo + 1) + [lo] == Descending(hi, lo)
    decreases hi - lo
  {
    if lo < hi {
      DescendingExtend(hi - 1, lo);
    }
  }

  /** No value below `lo` occurs among `hi` down to `lo`. */
  lemma DescendingBelow(hi: int, lo: nat, x: int)
    requires 0 < x < lo
    ensures x !in [0] + Descending(hi, lo)
  {
    var d := Descending(hi, lo);
    forall k | 0 <= k < |d| ensures d[k] != x {
      assert d[k] == hi - k;
    }
    assert x !in d;
  }

  /** The schedule `0, n-1, ..., 2`: entries below `n`, none twice, all but index 1 present. */
  lemma ScheduleEntries(n: nat)
    ensures |Schedule(n)| == if n <= 1 then n else n - 1
    ensures forall t :: 0 <= t < |Schedule(n)| ==> Schedule(n)[t] < n
    ensures forall a, b :: 0 <= a < b < |Schedule(n)| ==> Schedule(n)[a] != Schedule(n)[b]
    ensures forall i :: 0 <= i < n && i != 1 ==> i in Schedule(n)
    ensures 1 !in Schedule(n)
  {
    var order := Schedule(n);
    assert forall t :: 1 <= t < |order| ==> order[t] == n - t;
    forall i | 2 <= i < n ensures i in order {
      assert order[n - i] == i;
    }
  }

  // ---------------------------------------------------------------------------
  // Merge step
  // ---------------------------------------------------------------------------

  /** A multiset without repeats keeps that property in each part of a sum. */
  lemma NoRepeatsParts(a: multiset<int>, b: multiset<int>)
    requires NoRepeats(a + b)
    ensures NoRepeats(a) && NoRepeats(b)
  {
    forall x | x in a ensures a[x] <= 1 {
      NoRepeatsAt(a + b, x);
    }
    forall x | x in b ensures b[x] <= 1 {
      NoRepeatsAt(a + b, x);
    }
  }

  /** In a sum without repeats, a value of one part is absent from the other. */
  lemma NoRepeatsExclusive(a: multiset<int>, b: multiset<int>, x: int)
    requires NoRepeats(a + b) && x in a + b
    ensures x in a <==> x !in b
  {
    NoRepeatsAt(a + b, x);
    assert (a + b)[x] == a[x] + b[x];
  }

  /** With all values distinct, different pairs have different smaller elements. */
  lemma SmallsDistinct(pairs: seq<Pair>)
    requires NoRepeats(Elems(pairs))
    ensures forall i, j :: 0 <= i < j < |pairs| ==> pairs[i].small != pairs[j].small
  {
    NoRepeatsParts(multiset(Bigs(pairs)), multiset(Smalls(pairs)));
    forall i, j | 0 <= i < j < |pairs| ensures pairs[i].small != pairs[j].small {
      DistinctAt(Smalls(pairs), i, j);
    }
  }

  /**
    Ghost bookkeeping of the merge step: `rest` holds the smaller elements not
    yet in the chain.
   */
  ghost predicate MergeState(pairs: seq<Pair>, chain: seq<int>, rest: multiset<int>) {
    multiset(chain) + rest == Elems(pairs) && rest <= multiset(Smalls(pairs))
  }

  /**
    One bounded insertion of the merge step: the smaller element of pair `i`,
    still waiting in `rest`, is inserted below its partner and leaves `rest`;
    every other waiting value stays.
   */
  method InsertPairSmall(chain: seq<int>, pairs: seq<Pair>, i: nat, ghost rest: multiset<int>)
    returns (r: seq<int>)
    requires NoRepeats(Elems(pairs))
    requires i < |pairs| && pairs[i].small <= pairs[i].big && pairs[i].small in rest
    requires Increasing(chain) && MergeState(pairs, chain, rest)
    ensures Increasing(r) && multiset(r) == multiset(chain) + multiset{pairs[i].small}
    ensures MergeState(pairs, r, rest - multiset{pairs[i].small})
    ensures pairs[i].small !in rest - multiset{pairs[i].small}
  {
    var small := pairs[i].small;
    NoRepeatsExclusive(multiset(chain), rest, small);
    r := BoundedInsert(chain, small, pairs[i].big);
    NoRepeatsParts(multiset(chain), rest);
    NoRepeatsAt(rest, small);
  }

  /**
    Starts the chain with the larger elements in pair order, inserts the
    smaller ones in schedule order, each bounded by its partner, and then
    inserts every smaller element still missing from the chain. With no pairs
    the chain is left as it was.
   */
  method InsertSmalls(chain: seq<int>, pairs: seq<Pair>) returns (r: seq<int>)
    requires Increasing(Bigs(pairs))
    requires forall i :: 0 <= i < |pairs| ==> pairs[i].small <= pairs[i].big
    requires NoRepeats(Elems(pairs))
    ensures |pairs| == 0 ==> r == chain
    ensures |pairs| > 0 ==> Increasing(r) && multiset(r) == Elems(pairs)
  {
    if |pairs| == 0 {
      return chain;
    }
    var n := |pairs|;
    r := MainChain(pairs);
    SmallsDistinct(pairs);
    ghost var rest := multiset(Smalls(pairs));

    var order := JacobsthalOrder(n);
    ScheduleEntries(n);
    forall u | 0 <= u < |order| ensures pairs[order[u]].small in rest {
      assert Smalls(pairs)[order[u]] == pairs[order[u]].small;
    }
    r, rest := InsertScheduled(r, pairs, order, rest);
    r := InsertMissingSmalls(r, pairs, rest);
  }

  /**
    The scheduled insertions of the merge step: the smaller element of each
    pair named by `order`, in that order, each bounded by its partner.
   */
  method InsertScheduled(chain: seq<int>, pairs: seq<Pair>, order: seq<nat>, ghost rest: multiset<int>)
    returns (r: seq<int>, ghost left: multiset<int>)
    requires forall i :: 0 <= i < |pairs| ==> pairs[i].small <= pairs[i].big
    requires NoRepeats(Elems(pairs))
    requires forall i, j :: 0 <= i < j < |pairs| ==> pairs[i].small != pairs[j].small
    requires forall u :: 0 <= u < |order| ==> order[u] < |pairs|
    requires forall a, b :: 0 <= a < b < |order| ==> order[a] != order[b]
    requires forall u :: 0 <= u < |order| ==> pairs[order[u]].small in rest
    requires Increasing(chain) && MergeState(pairs, chain, rest)
    ensures Increasing(r) && MergeState(pairs, r, left)
  {
    r, left := chain, rest;
    for t := 0 to |order|
      invariant Increasing(r) && MergeState(pairs, r, left)
      invariant forall u :: t <= u < |order| ==> pairs[order[u]].small in left
    {
      var i := order[t];
      ghost var x := pairs[i].small;
      r := InsertPairSmall(r, pairs, i, left);
      StillPending(pairs, order, t, left);
      left := left - multiset{x};
    }
  }

  /** The main chain before any insertion: the larger element of every pair, in pair order. */
  method MainChain(pairs: seq<Pair>) returns (r: seq<int>)
    ensures r == Bigs(pairs)
  {
    r := [];
    for i := 0 to |pairs|
      invariant r == Bigs(pairs)[..i]
    {
      r := r + [pairs[i].big];
    }
    assert Bigs(pairs)[..|pairs|] == Bigs(pairs);
  }

  /** Inserting the smaller element of one scheduled pair leaves the later ones pending. */
  lemma StillPending(pairs: seq<Pair>, order: seq<nat>, t: nat, rest: multiset<int>)
    requires t < |order| && forall u :: 0 <= u < |order| ==> order[u] < |pairs|
    requires forall a, b :: 0 <= a < b < |order| ==> order[a] != order[b]
    requires forall i, j :: 0 <= i < j < |pairs| ==> pairs[i].small != pairs[j].small
    requires forall u :: t <= u < |order| ==> pairs[order[u]].small in rest
    ensures forall u :: t < u < |order| ==>
              pairs[order[u]].small in rest - multiset{pairs[order[t]].small}
  {
    forall u | t < u < |order|
      ensures pairs[order[u]].small in rest - multiset{pairs[order[t]].small}
    {
      assert order[u] != order[t];
      if order[u] < order[t] {
        assert pairs[order[u]].small != pairs[order[t]].small;
      } else {
        assert pairs[order[t]].small != pairs[order[u]].small;
      }
    }
  }

  /**
    The safety pass of the merge step: inserts, bounded by its partner, every
    smaller element not yet in the chain, so that afterwards the chain holds
    all elements of the pairs.
   */
  method InsertMissingSmalls(chain: seq<int>, pairs: seq<Pair>, ghost rest: multiset<int>)
    returns (r: seq<int>)
    requires forall i :: 0 <= i < |pairs| ==> pairs[i].small <= pairs[i].big
    requires NoRepeats(Elems(pairs))
    requires Increasing(chain) && MergeState(pairs, chain, rest)
    ensures Increasing(r) && multiset(r) == Elems(pairs)
  {
    r := chain;
    ghost var rest := rest;
    assert Smalls(pairs)[0..] == Smalls(pairs);
    for i := 0 to |pairs|
      invariant Increasing(r) && MergeState(pairs, r, rest)
      invariant rest <= multiset(Smalls(pairs)[i..])
    {
      var small := pairs[i].small;
      assert Smalls(pairs)[i..] == [small] + Smalls(pairs)[i + 1..];
      NoRepeatsExclusive(multiset(r), rest, small);
      if small !in r {
        r := InsertPairSmall(r, pairs, i, rest);
        rest := rest - multiset{small};
      }
      assert small !in rest;
      PendingTail(rest, small, Smalls(pairs)[i + 1..]);
    }
    assert rest == multiset{};
  }

  /** A pending multiset without the head element is pending in the tail. */
  lemma PendingTail(rest: multiset<int>, small: int, tail: seq<int>)
    requires rest <= multiset([small] + tail) && small !in rest
    ensures rest <= multiset(tail)
  {
    assert multiset([small] + tail) == multiset{small} + multiset(tail);
  }

  // ---------------------------------------------------------------------------
  // The sort
  // ---------------------------------------------------------------------------

  /** A strictly increasing sequence has no repeated value. */
  lemma IncreasingDistinct(s: seq<int>)
    requires Increasing(s)
    ensures Distinct(s)
  {
    DistinctByIndex(s);
  }

  /**
    `sortBigs`: collects the larger element of every pair, in pair order, and
    sorts them recursively.
   */
  method SortBigs(pairs: seq<Pair>) returns (bigs: seq<int>)
    requires Distinct(Bigs(pairs))
    ensures Increasing(bigs) && multiset(bigs) == multiset(Bigs(pairs))
    decreases |pairs|, 2
  {
    bigs := [];
    for i := 0 to |pairs|
      invariant bigs == Bigs(pairs)[..i]
    {
      bigs := bigs + [pairs[i].big];
    }
    assert bigs == Bigs(pairs);
    bigs := FordJohnson(bigs);
  }

  /**
    `fordJohnson`: merge-insertion sort. Sequences of at most one element are
    returned as they are; otherwise the elements are paired, the larger ones
    sorted recursively, the pairs put in that order, the smaller ones merged
    into the chain, and a leftover odd element inserted at its lower bound.
   */
  method FordJohnson(v: seq<int>) returns (r: seq<int>)
    requires Distinct(v)
    ensures Increasing(r) && multiset(r) == multiset(v)
    ensures |v| <= 1 ==> r == v
    decreases |v|, 1
  {
    if |v| <= 1 {
      return v;
    }
    var pairs, hasStraggler, straggler := BuildPairs(v);
    var extra := if hasStraggler then multiset{straggler} else multiset{};
    NoRepeatsParts(Elems(pairs), extra);
    NoRepeatsParts(multiset(Bigs(pairs)), multiset(Smalls(pairs)));

    var bigs := SortBigs(pairs);
    IncreasingDistinct(bigs);
    var ordered := ReorderPairsByBigs(pairs, bigs);
    ElemsOfPermutation(pairs, ordered);
    assert Bigs(ordered) == bigs;

    var chain := InsertSmalls([], ordered);
    assert multiset(chain) + extra == multiset(v);
    if hasStraggler {
      NoRepeatsExclusive(multiset(chain), extra, straggler);
      chain := InsertStraggler(chain, straggler);
    }
    r := chain;
  }

  /** The final step of the sort: the odd element goes in at its lower bound in the chain. */
  method InsertStraggler(chain: seq<int>, x: int) returns (r: seq<int>)
    requires Increasing(chain) && x !in chain
    ensures Increasing(r) && multiset(r) == multiset(chain) + multiset{x}
  {
    var p := LowerBound(chain, |chain|, x);
    InsertKeepsIncreasing(chain, p, x);
    InsertAtCount(chain, p, x);
    r := chain[..p] + [x] + chain[p..];
  }

  /** Inserting a value at a position adds exactly that value. */
  lemma InsertAtCount(s: seq<int>, p: nat, x: int)
    requires p <= |s|
    ensures multiset(s[..p] + [x] + s[p..]) == multiset(s) + multiset{x}
  {
    assert s == s[..p] + s[p..];
  }

  /** The first element of an increasing sequence is its least. */
  lemma IncreasingHeadIsLeast(s: seq<int>, x: int)
    requires Increasing(s) && x in multiset(s)
    ensures |s| > 0 && s[0] <= x
  {
    var i :| 0 <= i < |s| && s[i] == x;
  }

  /** Dropping the first element removes one copy of it and keeps the order. */
  lemma IncreasingTail(s: seq<int>)
    requires Increasing(s) && |s| > 0
    ensures Increasing(s[1..]) && multiset(s[1..]) == multiset(s) - multiset{s[0]}
  {
    assert s == [s[0]] + s[1..];
  }

  /** A strictly increasing arrangement of a multiset is unique. */
  lemma {:induction false} IncreasingPermutationUnique(a: seq<int>, b: seq<int>)
    requires Increasing(a) && Increasing(b) && multiset(a) == multiset(b)
    ensures a == b
    decreases |a|
  {
    assert |a| == |multiset(a)| == |b|;
    if |a| > 0 {
      IncreasingHeadIsLeast(b, a[0]);
      IncreasingHeadIsLeast(a, b[0]);
      IncreasingTail(a);
      IncreasingTail(b);
      IncreasingPermutationUnique(a[1..], b[1..]);
      forall i | 1 <= i < |a| ensures a[i] == b[i] {
        assert a[i] == a[1..][i - 1] && b[i] == b[1..][i - 1];
      }
    }
  }

  /**
    The two public entry points, `sortVector` and `sortDeque`, run the same
    algorithm on a copy of the parsed input; the program then requires both
    results to agree. Any two runs of the sort on the same distinct input
    give the same sorted sequence.
   */
  method SortBothContainers(input: seq<int>) returns (v: seq<int>, d: seq<int>)
    requires Distinct(input)
    ensures v == d
    ensures Increasing(v) && multiset(v) == multiset(input)
  {
    v := FordJohnson(input);
    d := FordJohnson(input);
    IncreasingPermutationUnique(v, d);
  }

  /**
    Sorting is idempotent: sorting the sorted output again returns it
    unchanged, since an increasing sequence is its own only increasing
    permutation.
   */
  method SortIdempotent(input: seq<int>) returns (once: seq<int>, twice: seq<int>)
    requires Distinct(input)
    ensures twice == once
    ensures Increasing(once) && multiset(once) == multiset(input)
  {
    once := FordJohnson(input);
    IncreasingDistinct(once);
    twice := FordJohnson(once);
    IncreasingPermutationUnique(twice, once);
  }
}
