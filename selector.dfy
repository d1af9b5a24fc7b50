/** The name pool of src/modules/RandomSelector.js: the list of all names
    and the list of names not yet drawn, sampled without replacement.
    The random index of `chooseName` is a parameter, so every contract
    holds for every index the random source could produce. */
module Selector {
  import Seqs
  import Pool
  import Text

  class RandomSelector {
    var originalNames: seq<string>
    var remainingNames: seq<string>

    /** The names not yet drawn are always a subsequence of all names. */
    ghost predicate Valid()
      reads this
    {
      Seqs.IsSubsequence(remainingNames, originalNames)
    }

    /** `new RandomSelector(names)`: a copy of `names`, with nothing drawn yet. */
    constructor(names: seq<string>)
      ensures Valid()
      ensures originalNames == names && remainingNames == names
    {
      originalNames := names;
      remainingNames := names;
      Seqs.SubsequenceReflexive(names);
    }

    method HasNamesRemaining() returns (b: bool)
      ensures b <==> |remainingNames| > 0
    {
      b := |remainingNames| > 0;
    }

    /** Draws the name at index `i` of the remaining names, or gives `null`
        (None) when none remain; all names stay listed. */
    method ChooseName(i: nat) returns (name: Pool.Option<string>)
      requires Valid()
      requires remainingNames == [] || i < |remainingNames|
      modifies this
      ensures Valid()
      ensures originalNames == old(originalNames)
      ensures old(remainingNames) == [] ==> name == Pool.None && remainingNames == []
      ensures old(remainingNames) != [] ==>
        name == Pool.Some(old(remainingNames)[i]) &&
        remainingNames == Seqs.Remove(old(remainingNames), i)
    {
      var has := HasNamesRemaining();
      if !has {
        return Pool.None;
      }
      name := Pool.Some(remainingNames[i]);
      Seqs.RemoveIsSubsequence(remainingNames, i);
      Seqs.SubsequenceTransitive(Seqs.Remove(remainingNames, i), remainingNames, originalNames);
      remainingNames := remainingNames[..i] + remainingNames[i + 1..];
    }

    /** Appends the trimmed name unless it is empty or already listed; if it
        was appended, every name is available again. */
    method AddName(name: string)
      requires Valid()
      modifies this
      ensures Valid()
      ensures originalNames == Pool.Added(old(originalNames), name)
      ensures remainingNames ==
        if originalNames == old(originalNames) then old(remainingNames) else originalNames
    {
      var trimmed := Text.Trim(name);
      if trimmed == [] || trimmed in originalNames {
        return;
      }
      originalNames := originalNames + [trimmed];
      Reset();
    }

    /** Makes every name available again. */
    method Reset()
      modifies this
      ensures Valid()
      ensures originalNames == old(originalNames) && remainingNames == originalNames
    {
      remainingNames := originalNames;
      Seqs.SubsequenceReflexive(originalNames);
    }

    /** Forgets every name. */
    method Clear()
      modifies this
      ensures Valid()
      ensures originalNames == [] && remainingNames == []
    {
      originalNames := [];
      Reset();
    }
  }

  /** A client of the contracts above: three names drawn with any random
      indices from a pool of three come out as a permutation of the three,
      and a fourth draw gives `null`. */
  method DrawThree(names: seq<string>, i: nat, j: nat, k: nat)
    returns (first: Pool.Option<string>, second: Pool.Option<string>,
             third: Pool.Option<string>, fourth: Pool.Option<string>)
    requires |names| == 3 && i < 3 && j < 2 && k < 1
    ensures first.Some? && second.Some? && third.Some?
    ensures multiset{first.value, second.value, third.value} == multiset(names)
    ensures fourth == Pool.None
  {
    var s := new RandomSelector(names);
    first := s.ChooseName(i);
    second := s.ChooseName(j);
    third := s.ChooseName(k);
    ThreeDrawsArePermutation(names, i, j, k);
    fourth := s.ChooseName(0);
  }

  /** A client of the contracts above: `chooseName` called once per entry of
      `choices`, each time picking that index, draws the names `Pool.DrawMany`
      describes and leaves its pool behind; as many draws as names draw every
      name, each as often as it is listed. */
  method DrawRun(s: RandomSelector, choices: seq<nat>) returns (drawn: seq<string>)
    requires s.Valid() && Pool.ChoicesFit(s.remainingNames, choices)
    modifies s
    ensures s.Valid() && s.originalNames == old(s.originalNames)
    ensures drawn == Pool.DrawMany(old(s.remainingNames), choices).0
    ensures s.remainingNames == Pool.DrawMany(old(s.remainingNames), choices).1
    ensures |choices| == |old(s.remainingNames)| ==>
      s.remainingNames == [] && multiset(drawn) == multiset(old(s.remainingNames))
  {
    ghost var pool := s.remainingNames;
    drawn := [];
    assert choices[0..] == choices;
    for k := 0 to |choices|
      invariant s.Valid() && s.originalNames == old(s.originalNames)
      invariant Pool.ChoicesFit(s.remainingNames, choices[k..])
      invariant Pool.DrawMany(pool, choices).0 == drawn + Pool.DrawMany(s.remainingNames, choices[k..]).0
      invariant Pool.DrawMany(pool, choices).1 == Pool.DrawMany(s.remainingNames, choices[k..]).1
    {
      DrawRunStep(Pool.DrawMany(pool, choices).0, Pool.DrawMany(pool, choices).1,
                  choices, drawn, s.remainingNames, k);
      var name := s.ChooseName(choices[k]);
      drawn := drawn + [name.value];
    }
    assert choices[|choices|..] == [];
    if |choices| == |pool| {
      Pool.DrainYieldsEachNameOnce(pool, choices);
    }
  }

  /** One turn of DrawRun's loop: the next draw picks `choices[k]` from
      what is left, and a run `(drawnAll, leftAll)` that is what has been
      drawn so far followed by the rest of the run stays so after the draw. */
  lemma DrawRunStep(drawnAll: seq<string>, leftAll: seq<string>, choices: seq<nat>,
                    drawn: seq<string>, left: seq<string>, k: nat)
    requires k < |choices| && Pool.ChoicesFit(left, choices[k..])
    requires drawnAll == drawn + Pool.DrawMany(left, choices[k..]).0
    requires leftAll == Pool.DrawMany(left, choices[k..]).1
    ensures choices[k] < |left| && Pool.ChoicesFit(Seqs.Remove(left, choices[k]), choices[k + 1..])
    ensures drawnAll ==
      drawn + [left[choices[k]]] + Pool.DrawMany(Seqs.Remove(left, choices[k]), choices[k + 1..]).0
    ensures leftAll == Pool.DrawMany(Seqs.Remove(left, choices[k]), choices[k + 1..]).1
  {
    Pool.DrawManyAt(left, choices, k);
    var x := left[choices[k]];
    var rest := Pool.DrawMany(Seqs.Remove(left, choices[k]), choices[k + 1..]).0;
    assert Pool.DrawMany(left, choices[k..]).0 == [x] + rest;
    Seqs.AppendAssociative(drawn, [x], rest);
  }

  /** Three draws, by index, from a pool of three yield each listed entry. */
  lemma ThreeDrawsArePermutation<T>(pool: seq<T>, i: nat, j: nat, k: nat)
    requires |pool| == 3 && i < 3 && j < 2 && k < 1
    ensures var pool1 := Seqs.Remove(pool, i);
      var pool2 := Seqs.Remove(pool1, j);
      multiset{pool[i], pool1[j], pool2[k]} == multiset(pool)
  {
    var pool1 := Seqs.Remove(pool, i);
    var pool2 := Seqs.Remove(pool1, j);
    LastEntry(pool2);
    ThreeSingletons(multiset(pool), multiset(pool1), multiset(pool2), pool[i], pool1[j], pool2[k]);
  }

  /** A one-entry list holds just that entry. */
  lemma LastEntry<T>(s: seq<T>)
    requires |s| == 1
    ensures multiset(s) == multiset{s[0]}
  {
    assert s == [s[0]];
  }

  /** Taking out `a`, then `b`, and being left with `c` means the whole was `a`, `b` and `c`. */
  lemma ThreeSingletons<T>(m0: multiset<T>, m1: multiset<T>, m2: multiset<T>, a: T, b: T, c: T)
    requires m0 == m1 + multiset{a} && m1 == m2 + multiset{b} && m2 == multiset{c}
    ensures multiset{a, b, c} == m0
  {
  }

  /** A client of the contracts above: resetting twice is resetting once,
      and clearing then adding "A" lists only "A". */
  method ResetTwiceThenClear(names: seq<string>)
    returns (once: seq<string>, twice: seq<string>, listed: seq<string>)
    ensures once == twice == names
    ensures listed == ["A"]
  {
    var s := new RandomSelector(names);
    s.Reset();
    once := s.remainingNames;
    s.Reset();
    twice := s.remainingNames;
    s.Clear();
    s.AddName("A");
    Text.TrimFixed("A");
    listed := s.originalNames;
  }
}
