/**
 Sampling without replacement: `getRandom` of utils/src/misc.ts.

 The source never builds the list of remaining indices. It keeps a sparse array `taken` (a map
 from positions here) in which a hole at `i` means "slot `i` still holds index `i`", and overwrites
 the drawn slot with what the last live slot holds. `Picks` is the eager algorithm it stands for.
 */
module Sampling {
  import opened Wrappers

  /** What `Math.random()` can answer. */
  type Unit = r: real | 0.0 <= r < 1.0

  /** `Math.floor(Math.random() * len)` */
  function Draw(r: Unit, len: nat): (x: nat)
    requires len > 0
    ensures x < len
  {
    assert r * len as real < len as real;
    (r * len as real).Floor
  }

  /** The draws of one call: the number of live slots shrinks by one each time. */
  function Draws(random: seq<Unit>, len: nat): (choices: seq<nat>)
    requires |random| <= len
    ensures |choices| == |random| && Choices(choices, len)
    decreases |random|
  {
    if random == [] then [] else [Draw(random[0], len)] + Draws(random[1..], len - 1)
  }

  /** The choice vectors a call over `len` elements can see. */
  ghost predicate Choices(choices: seq<nat>, len: nat) {
    |choices| <= len && forall k :: 0 <= k < |choices| ==> choices[k] < len - k
  }

  ghost predicate Distinct<T>(s: seq<T>) {
    forall i, j :: 0 <= i < j < |s| ==> s[i] != s[j]
  }

  /** The live slots once slot `x` was drawn: the last one moves into its place. */
  function SwapOut<T>(slots: seq<T>, x: nat): seq<T>
    requires x < |slots|
  {
    slots[x := slots[|slots| - 1]][..|slots| - 1]
  }

  /** Eager partial Fisher-Yates: the drawn elements in drawing order. */
  ghost function Picks<T>(slots: seq<T>, choices: seq<nat>): (picks: seq<T>)
    requires Choices(choices, |slots|)
    ensures |picks| == |choices|
    decreases |choices|
  {
    if choices == [] then []
    else [slots[choices[0]]] + Picks(SwapOut(slots, choices[0]), choices[1..])
  }

  /** The elements left over once all choices were made. */
  ghost function Rest<T>(slots: seq<T>, choices: seq<nat>): seq<T>
    requires Choices(choices, |slots|)
    decreases |choices|
  {
    if choices == [] then slots else Rest(SwapOut(slots, choices[0]), choices[1..])
  }

  ghost function Identity(len: nat): (s: seq<nat>)
    ensures |s| == len && forall i :: 0 <= i < len ==> s[i] == i
  {
    seq(len, i => i)
  }

  ghost function Reverse<T>(s: seq<T>): (r: seq<T>)
    ensures |r| == |s| && forall i :: 0 <= i < |s| ==> r[i] == s[|s| - 1 - i]
  {
    if s == [] then [] else Reverse(s[1..]) + [s[0]]
  }

  /** The source fills `result` from its end, so the first element drawn lands last. */
  ghost function Sample<T>(arr: seq<T>, choices: seq<nat>): seq<T>
    requires Choices(choices, |arr|)
  {
    Reverse(Picks(arr, choices))
  }

  /** `i in taken ? taken[i] : i`, what slot `i` of the sparse array stands for. */
  function SlotValue(taken: map<int, int>, i: int): int {
    if i in taken then taken[i] else i
  }

  ghost predicate Represents(taken: map<int, int>, slots: seq<nat>) {
    forall i :: 0 <= i < |slots| ==> slots[i] == SlotValue(taken, i)
  }

  /** One round keeps the sparse array in step with the eager slots. */
  lemma RepresentsStep(taken: map<int, int>, slots: seq<nat>, x: nat)
    requires Represents(taken, slots) && x < |slots|
    ensures Represents(taken[x := SlotValue(taken, |slots| - 1)], SwapOut(slots, x))
  {
  }

  lemma {:induction false} DrawsAt(random: seq<Unit>, len: nat, k: nat)
    requires k < |random| <= len
    ensures Draws(random, len)[k] == Draw(random[k], len - k)
    decreases k
  {
    if k > 0 {
      DrawsAt(random[1..], len - 1, k - 1);
    }
  }

  /** The sparse array after `k` rounds. */
  ghost function Taken(len: nat, choices: seq<nat>, k: nat): map<int, int>
    requires k <= |choices| <= len
  {
    if k == 0 then map[]
    else
      var before := Taken(len, choices, k - 1);
      before[choices[k - 1] := SlotValue(before, len - k)]
  }

  /** The eager slots after `k` rounds. */
  ghost function Slots(len: nat, choices: seq<nat>, k: nat): (slots: seq<nat>)
    requires Choices(choices, len) && k <= |choices|
    ensures |slots| == len - k
  {
    if k == 0 then Identity(len) else SwapOut(Slots(len, choices, k - 1), choices[k - 1])
  }

  /** The sparse array stands for the eager slots after every round. */
  lemma {:induction false} TakenRepresentsSlots(len: nat, choices: seq<nat>, k: nat)
    requires Choices(choices, len) && k <= |choices|
    ensures Represents(Taken(len, choices, k), Slots(len, choices, k))
  {
    if k > 0 {
      TakenRepresentsSlots(len, choices, k - 1);
      RepresentsStep(Taken(len, choices, k - 1), Slots(len, choices, k - 1), choices[k - 1]);
    }
  }

  /** What is still to be picked after `k` rounds. */
  lemma {:induction false} PicksAfter(len: nat, choices: seq<nat>, k: nat)
    requires Choices(choices, len) && k <= |choices|
    ensures Picks<nat>(Identity(len), choices)[k..] == Picks<nat>(Slots(len, choices, k), choices[k..])
  {
    var all: seq<nat> := Picks(Identity(len), choices);
    if k == 0 {
      assert choices[0..] == choices && all[0..] == all;
    } else {
      PicksAfter(len, choices, k - 1);
      assert choices[k - 1..][1..] == choices[k..];
      assert all[k - 1..][1..] == all[k..];
    }
  }

  /** The element the source writes in round `k`. */
  lemma RoundDraws(arr: seq<string>, choices: seq<nat>, k: nat)
    requires Choices(choices, |arr|) && k < |choices|
    ensures var i := SlotValue(Taken(|arr|, choices, k), choices[k]);
            0 <= i < |arr| && arr[i] == Picks(arr, choices)[k]
  {
    PicksAfter(|arr|, choices, k);
    TakenRepresentsSlots(|arr|, choices, k);
    PicksMap(arr, choices, k);
    assert Picks<nat>(Identity(|arr|), choices)[k..][0] == Slots(|arr|, choices, k)[choices[k]];
  }

  // ---- more rounds than elements

  /** `arr[i]`, undefined out of range. */
  function ElementAt(arr: seq<string>, i: int): Option<string> {
    if 0 <= i < |arr| then Some(arr[i]) else None
  }

  /** `Math.floor(Math.random() * len)` for any `len`, which the source lets sink below zero. */
  function AnyDraw(r: Unit, len: int): int { (r * len as real).Floor }

  lemma DrawWithoutSlots(r: Unit, len: int)
    requires len <= 0
    ensures AnyDraw(r, len) <= 0 && (len == 0 ==> AnyDraw(r, len) == 0)
  {
    assert r * len as real <= 0.0;
  }

  /** The places drawn in the rounds of a call, however many. */
  ghost function AnyDraws(random: seq<Unit>, len: nat): (xs: seq<int>)
    ensures |xs| == |random| && forall k :: 0 <= k < |random| ==> xs[k] == AnyDraw(random[k], len - k)
  {
    seq(|random|, k requires 0 <= k < |random| => AnyDraw(random[k], len - k))
  }

  /** First the draws from the slots there are, then draws from none. */
  ghost predicate Continues(xs: seq<int>, choices: seq<nat>, len: nat) {
    && Choices(choices, len) && |choices| == Min(len, |xs|)
    && (forall k :: 0 <= k < |choices| ==> xs[k] == choices[k])
    && (forall k :: len <= k < |xs| ==> xs[k] <= 0)
    && (len < |xs| ==> xs[len] == 0)
  }

  function Min(a: nat, b: nat): nat { if a < b then a else b }

  lemma DrawsAgree(random: seq<Unit>, len: nat, k: nat)
    requires k < Min(len, |random|)
    ensures AnyDraw(random[k], len - k) == Draws(random[..Min(len, |random|)], len)[k]
  {
    DrawsAt(random[..Min(len, |random|)], len, k);
  }

  lemma DrawsContinue(random: seq<Unit>, len: nat)
    ensures Continues(AnyDraws(random, len), Draws(random[..Min(len, |random|)], len), len)
  {
    var n, xs := Min(len, |random|), AnyDraws(random, len);
    var choices := Draws(random[..n], len);
    forall k | 0 <= k < n ensures xs[k] == choices[k] {
      DrawsAgree(random, len, k);
    }
    forall k | len <= k < |xs| ensures xs[k] <= 0 && (k == len ==> xs[k] == 0) {
      DrawWithoutSlots(random[k], len - k);
    }
  }

  /** The sparse array after `k` rounds, however many. */
  ghost function Filled(len: nat, xs: seq<int>, k: nat): map<int, int>
    requires k <= |xs|
  {
    if k == 0 then map[]
    else
      var before := Filled(len, xs, k - 1);
      before[xs[k - 1] := SlotValue(before, len - k)]
  }

  /** While there are slots the rounds are those of the eager algorithm. */
  lemma {:induction false} FilledIsTaken(len: nat, xs: seq<int>, choices: seq<nat>, k: nat)
    requires Continues(xs, choices, len) && k <= |choices|
    ensures Filled(len, xs, k) == Taken(len, choices, k)
  {
    if k > 0 {
      FilledIsTaken(len, xs, choices, k - 1);
    }
  }

  lemma {:induction false} TakenAbove(len: nat, choices: seq<nat>, k: nat)
    requires k <= |choices| <= len
    ensures forall i :: i in Taken(len, choices, k) ==> i >= 0
  {
    if k > 0 {
      TakenAbove(len, choices, k - 1);
    }
  }

  /** From the round after the last slot went, every place up to zero stands for something below zero. */
  ghost predicate Spent(taken: map<int, int>) {
    0 in taken && forall i :: i in taken && i <= 0 ==> taken[i] < 0
  }

  lemma {:induction false} SpentAfter(len: nat, xs: seq<int>, choices: seq<nat>, k: nat)
    requires Continues(xs, choices, len) && len < k <= |xs|
    ensures Spent(Filled(len, xs, k))
  {
    if k == len + 1 {
      FilledIsTaken(len, xs, choices, len);
      TakenAbove(len, choices, len);
    } else {
      SpentAfter(len, xs, choices, k - 1);
    }
  }

  /**
   What round `k` of a call answers: an element of the eager sample while there are slots, then the last
   one drawn once more, then nothing.
   */
  ghost function ResultAt(arr: seq<string>, choices: seq<nat>, k: nat): Option<string>
    requires Choices(choices, |arr|)
  {
    if k < |choices| then Some(Picks(arr, choices)[k])
    else if k == |choices| > 0 then Some(Picks(arr, choices)[k - 1])
    else None
  }

  /** The source fills `result` from its end. */
  ghost function Results(arr: seq<string>, choices: seq<nat>, n: nat): (r: seq<Option<string>>)
    requires Choices(choices, |arr|)
    ensures |r| == n && forall i :: 0 <= i < n ==> r[i] == ResultAt(arr, choices, n - 1 - i)
  {
    seq(n, i requires 0 <= i < n => ResultAt(arr, choices, n - 1 - i))
  }

  lemma RoundResult(arr: seq<string>, xs: seq<int>, choices: seq<nat>, k: nat)
    requires Continues(xs, choices, |arr|) && k < |xs|
    ensures ElementAt(arr, SlotValue(Filled(|arr|, xs, k), xs[k])) == ResultAt(arr, choices, k)
  {
    var len := |arr|;
    if k < len {
      FilledIsTaken(len, xs, choices, k);
      RoundDraws(arr, choices, k);
    } else if k > len {
      SpentAfter(len, xs, choices, k);
    } else if len > 0 {
      FilledIsTaken(len, xs, choices, len);
      RoundDraws(arr, choices, len - 1);
      assert choices[len - 1] == 0;
    }
  }

  /** The choices among the slots there are. */
  ghost function SlotChoices(random: seq<Unit>, len: nat): (choices: seq<nat>)
    ensures |choices| == Min(len, |random|) && Choices(choices, len)
    ensures |random| <= len ==> choices == Draws(random, len)
  {
    assert |random| <= len ==> random[..|random|] == random;
    Draws(random[..Min(len, |random|)], len)
  }

  ghost function FilledBy(random: seq<Unit>, len: nat, k: nat): map<int, int>
    requires k <= |random|
  {
    Filled(len, AnyDraws(random, len), k)
  }

  lemma RoundStep(arr: seq<string>, random: seq<Unit>, k: nat, x: int, taken: map<int, int>)
    requires k < |random| && x == AnyDraws(random, |arr|)[k] && taken == FilledBy(random, |arr|, k)
    ensures ElementAt(arr, SlotValue(taken, x)) == ResultAt(arr, SlotChoices(random, |arr|), k)
    ensures taken[x := SlotValue(taken, |arr| - k - 1)] == FilledBy(random, |arr|, k + 1)
  {
    DrawsContinue(random, |arr|);
    RoundResult(arr, AnyDraws(random, |arr|), SlotChoices(random, |arr|), k);
  }

  /** The body of the loop: what is written to the result, and the sparse array with the place drawn filled. */
  method Round(arr: seq<string>, random: seq<Unit>, k: nat, len: int, taken: map<int, int>)
      returns (element: Option<string>, after: map<int, int>)
    requires k < |random| && len == |arr| - k && taken == FilledBy(random, |arr|, k)
    ensures element == ResultAt(arr, SlotChoices(random, |arr|), k)
    ensures after == FilledBy(random, |arr|, k + 1)
  {
    var x := AnyDraw(random[k], len);
    RoundStep(arr, random, k, x, taken);
    element := ElementAt(arr, SlotValue(taken, x));
    after := taken[x := SlotValue(taken, len - 1)];
  }

  /**
   The source, for any `n`. `random` lists the answers of `Math.random()`.
   The sparse array stands for the eager slots at every step, so the result is the eager sample, filled
   from the end; asked for more than there is, the call repeats the last element drawn once and then has
   nothing.
   */
  method GetRandom(arr: seq<string>, n: nat, random: seq<Unit>) returns (result: array<Option<string>>)
    requires |random| == n
    ensures result[..] == Results(arr, SlotChoices(random, |arr|), n)
    ensures n <= |arr| ==> result[..] == Defined(Sample(arr, SlotChoices(random, |arr|)))
  {
    var len: int := |arr|;
    var m := n;
    result := new Option<string>[n];
    var taken: map<int, int> := map[];
    ghost var choices := SlotChoices(random, |arr|);
    while m > 0
      invariant 0 <= m <= n && len == |arr| - n + m && result.Length == n
      invariant taken == FilledBy(random, |arr|, n - m)
      invariant result[m..] == Results(arr, choices, n)[m..]
    {
      m := m - 1;
      result[m], taken := Round(arr, random, n - 1 - m, len, taken);
      len := len - 1;
    }
    if n <= |arr| {
      ResultsAreSample(arr, choices);
    }
  }

  function Defined(s: seq<string>): (d: seq<Option<string>>)
    ensures |d| == |s| && forall i :: 0 <= i < |s| ==> d[i] == Some(s[i])
  {
    seq(|s|, i requires 0 <= i < |s| => Some(s[i]))
  }

  /** With as many rounds as choices the answers are the eager sample. */
  lemma ResultsAreSample(arr: seq<string>, choices: seq<nat>)
    requires Choices(choices, |arr|)
    ensures Results(arr, choices, |choices|) == Defined(Sample(arr, choices))
  {
    forall i | 0 <= i < |choices| ensures Results(arr, choices, |choices|)[i] == Some(Sample(arr, choices)[i]) {
      assert Results(arr, choices, |choices|)[i] == ResultAt(arr, choices, |choices| - 1 - i);
    }
  }

  /** Drawing elements is drawing their indices. */
  lemma PicksMap<T>(arr: seq<T>, choices: seq<nat>, k: nat)
    requires Choices(choices, |arr|) && k < |choices|
    ensures Picks<nat>(Identity(|arr|), choices)[k] < |arr|
    ensures Picks(arr, choices)[k] == arr[Picks<nat>(Identity(|arr|), choices)[k]]
  {
    PicksMapValues(arr, Identity(|arr|), arr, choices);
  }

  lemma {:induction false} PicksMapValues<T>(arr: seq<T>, slots: seq<nat>, values: seq<T>, choices: seq<nat>)
    requires |values| == |slots| && Choices(choices, |slots|)
    requires forall i :: 0 <= i < |slots| ==> slots[i] < |arr| && values[i] == arr[slots[i]]
    ensures forall k :: 0 <= k < |choices| ==>
              Picks<nat>(slots, choices)[k] < |arr| && Picks(values, choices)[k] == arr[Picks<nat>(slots, choices)[k]]
    decreases |choices|
  {
    if choices != [] {
      PicksMapValues(arr, SwapOut(slots, choices[0]), SwapOut(values, choices[0]), choices[1..]);
    }
  }

  // ---- no element is drawn twice, and none is invented

  /** Every draw takes one occurrence out of the array; what is drawn and what is left make up the array. */
  lemma {:induction false} SampleConserves<T>(arr: seq<T>, choices: seq<nat>)
    requires Choices(choices, |arr|)
    ensures multiset(Picks(arr, choices)) + multiset(Rest(arr, choices)) == multiset(arr)
    ensures multiset(Sample(arr, choices)) == multiset(Picks(arr, choices))
  {
    PicksConserve(arr, choices);
    ReverseKeepsMultiset(Picks(arr, choices));
  }

  lemma {:induction false} PicksConserve<T>(slots: seq<T>, choices: seq<nat>)
    requires Choices(choices, |slots|)
    ensures multiset(Picks(slots, choices)) + multiset(Rest(slots, choices)) == multiset(slots)
    decreases |choices|
  {
    if choices != [] {
      var x := choices[0];
      SwapOutConserves(slots, x);
      PicksConserve(SwapOut(slots, x), choices[1..]);
    }
  }

  lemma SwapOutConserves<T>(slots: seq<T>, x: nat)
    requires x < |slots|
    ensures multiset(SwapOut(slots, x)) + multiset{slots[x]} == multiset(slots)
  {
    var last := slots[|slots| - 1];
    var swapped := slots[x := last];
    assert swapped == SwapOut(slots, x) + [last];
    assert multiset(swapped) == multiset(SwapOut(slots, x)) + multiset{last};
    assert multiset(swapped) == multiset(slots) - multiset{slots[x]} + multiset{last};
  }

  lemma {:induction false} ReverseKeepsMultiset<T>(s: seq<T>)
    ensures multiset(Reverse(s)) == multiset(s)
  {
    if s != [] {
      ReverseKeepsMultiset(s[1..]);
      assert s == [s[0]] + s[1..];
    }
  }

  /** The drawn indices are pairwise distinct. */
  lemma {:induction false} PicksAreDistinct<T>(slots: seq<T>, choices: seq<nat>)
    requires Choices(choices, |slots|) && Distinct(slots)
    ensures Distinct(Picks(slots, choices))
    ensures forall p :: p in Picks(slots, choices) ==> p in slots
    decreases |choices|
  {
    if choices != [] {
      var x := choices[0];
      var rest := SwapOut(slots, x);
      PicksAreDistinct(rest, choices[1..]);
      assert slots[x] !in rest;
      assert forall p :: p in rest ==> p in slots;
    }
  }

  // ---- choice vectors and ordered selections are in bijection

  /** The choice vector that draws `picks`, in this order, from `slots`. */
  ghost function ChoicesFor<T>(slots: seq<T>, picks: seq<T>): (choices: seq<nat>)
    requires Distinct(slots) && Distinct(picks)
    requires forall p :: p in picks ==> p in slots
    ensures Choices(choices, |slots|) && Picks(slots, choices) == picks
    decreases |picks|
  {
    if picks == [] then []
    else
      assert picks[0] in picks;
      var x :| 0 <= x < |slots| && slots[x] == picks[0];
      var rest := SwapOut(slots, x);
      assert forall p :: p in picks[1..] ==> p in rest by { OthersRemain(slots, x, picks); }
      var more := ChoicesFor(rest, picks[1..]);
      assert ([x] + more)[1..] == more && [picks[0]] + picks[1..] == picks;
      [x] + more
  }

  lemma OthersRemain<T>(slots: seq<T>, x: nat, picks: seq<T>)
    requires x < |slots| && picks != [] && slots[x] == picks[0] && Distinct(picks)
    requires forall p :: p in picks ==> p in slots
    ensures forall p :: p in picks[1..] ==> p in SwapOut(slots, x)
  {
    forall p | p in picks[1..] ensures p in SwapOut(slots, x) {
      assert p in picks;
      var j :| 0 <= j < |slots| && slots[j] == p;
      assert j != x;
      if j < |slots| - 1 {
        assert SwapOut(slots, x)[j] == p;
      } else {
        assert SwapOut(slots, x)[x] == p;
      }
    }
  }

  /** Two choice vectors never draw the same selection. */
  lemma {:induction false} PicksAreInjective<T>(slots: seq<T>, a: seq<nat>, b: seq<nat>)
    requires Distinct(slots) && Choices(a, |slots|) && Choices(b, |slots|)
    requires Picks(slots, a) == Picks(slots, b)
    ensures a == b
    decreases |a|
  {
    if a != [] {
      assert Picks(slots, a)[0] == slots[a[0]] && Picks(slots, b)[0] == slots[b[0]];
      assert a[0] == b[0];
      assert Picks(slots, a)[1..] == Picks(slots, b)[1..];
      PicksAreInjective(SwapOut(slots, a[0]), a[1..], b[1..]);
    }
  }

  lemma ReverseIsDistinct<T>(s: seq<T>)
    requires Distinct(s)
    ensures Distinct(Reverse(s)) && forall x :: x in Reverse(s) ==> x in s
  {
    forall x | x in Reverse(s) ensures x in s {
      var i :| 0 <= i < |s| && Reverse(s)[i] == x;
      assert s[|s| - 1 - i] == x;
    }
  }

  /**
   Over an array of distinct elements every ordered selection without repetition comes from exactly
   one choice vector: none is unreachable and none is counted twice.
   */
  lemma EverySelectionExactlyOnce<T>(arr: seq<T>, selection: seq<T>)
    requires Distinct(arr) && Distinct(selection) && forall s :: s in selection ==> s in arr
    ensures exists choices ::
              && Choices(choices, |arr|) && Sample(arr, choices) == selection
              && forall other :: Choices(other, |arr|) && Sample(arr, other) == selection ==> other == choices
  {
    var picks := Reverse(selection);
    ReverseIsDistinct(selection);
    assert Reverse(picks) == selection;
    var choices := ChoicesFor(arr, picks);
    assert Sample(arr, choices) == selection;
    forall other | Choices(other, |arr|) && Sample(arr, other) == selection
      ensures other == choices
    {
      assert Reverse(selection) == Picks(arr, other);
      PicksAreInjective(arr, other, choices);
    }
  }

  /** Conversely every choice vector yields an ordered selection without repetition. */
  lemma SampleIsSelection<T>(arr: seq<T>, choices: seq<nat>)
    requires Distinct(arr) && Choices(choices, |arr|)
    ensures Distinct(Sample(arr, choices))
    ensures forall s :: s in Sample(arr, choices) ==> s in arr
  {
    PicksAreDistinct(arr, choices);
    var picks := Picks(arr, choices);
    forall s | s in Sample(arr, choices) ensures s in arr {
      var i :| 0 <= i < |picks| && Sample(arr, choices)[i] == s;
      assert picks[|picks| - 1 - i] == s;
    }
  }

  // ---- every choice is drawn, each from an interval of the same width

  lemma DrawInterval(r: Unit, len: nat, x: nat)
    requires x < len
    ensures Draw(r, len) == x <==> x as real / len as real <= r < (x + 1) as real / len as real
  {
    var l := len as real;
    DivideBound(x as real, r, l);
    DivideBound((x + 1) as real, r, l);
  }

  lemma DivideBound(a: real, r: real, l: real)
    requires l > 0.0
    ensures a / l <= r <==> a <= r * l
    ensures r <= a / l <==> r * l <= a
  {
    var q := a / l;
    assert q * l == a;
    if q == r {
    } else if q < r {
      assert (r - q) * l > 0.0;
    } else {
      assert (q - r) * l > 0.0;
    }
  }

  /** Some answer draws `x`. */
  lemma SomeAnswerDraws(x: nat, len: nat) returns (r: Unit)
    requires x < len
    ensures Draw(r, len) == x
  {
    var q := x as real / len as real;
    DivideBound(x as real, q, len as real);
    assert q * len as real == x as real;
    DivideBound(x as real, 1.0, len as real);
    r := q;
  }

  /** For every choice vector there are answers of `Math.random()` that draw it. */
  lemma {:induction false} EveryChoiceIsDrawn(choices: seq<nat>, len: nat)
    requires Choices(choices, len)
    ensures exists random: seq<Unit> :: |random| == |choices| && Draws(random, len) == choices
  {
    if choices == [] {
      assert Draws([], len) == choices;
    } else {
      EveryChoiceIsDrawn(choices[1..], len - 1);
      var rest: seq<Unit> :| |rest| == |choices| - 1 && Draws(rest, len - 1) == choices[1..];
      var r := SomeAnswerDraws(choices[0], len);
      var random := [r] + rest;
      assert random[1..] == rest;
      assert Draws(random, len) == choices;
    }
  }
}
