/** The older single-file version of the picker, script.js: its own copy of
    the name pool (without `clear`) and of the controller decisions (without
    a clear button), with the button labels "Reset ♻️" and "Spin 🎲". */
module LegacyScript {
  import Seqs
  import Pool
  import Text
  import View
  import NameInput

  const ResetLabel: string := "Reset \U{267B}\U{FE0F}"
  const SpinLabel: string := "Spin \U{1F3B2}"

  class RandomSelector {
    var originalNames: seq<string>
    var remainingNames: seq<string>

    /** The names not yet drawn are always a subsequence of all names. */
    ghost predicate Valid()
      reads this
    {
      Seqs.IsSubsequence(remainingNames, originalNames)
    }

    /** `new RandomSelector(names)`: a copy of `names`, with nothing drawn yet. */
    constructor(names: seq<string>)
      ensures Valid()
      ensures originalNames == names && remainingNames == names
    {
      originalNames := names;
      remainingNames := names;
      Seqs.SubsequenceReflexive(names);
    }

    method HasNamesRemaining() returns (b: bool)
      ensures b <==> |remainingNames| > 0
    {
      b := |remainingNames| > 0;
    }

    /** Draws the name at index `i` of the remaining names, or gives `null`
        (None) when none remain; all names stay listed. */
    method ChooseName(i: nat) returns (name: Pool.Option<string>)
      requires Valid()
      requires remainingNames == [] || i < |remainingNames|
      modifies this
      ensures Valid()
      ensures originalNames == old(originalNames)
      ensures old(remainingNames) == [] ==> name == Pool.None && remainingNames == []
      ensures old(remainingNames) != [] ==>
        name == Pool.Some(old(remainingNames)[i]) &&
        remainingNames == Seqs.Remove(old(remainingNames), i)
    {
      var has := HasNamesRemaining();
      if !has {
        return Pool.None;
      }
      name := Pool.Some(remainingNames[i]);
      Seqs.RemoveIsSubsequence(remainingNames, i);
      Seqs.SubsequenceTransitive(Seqs.Remove(remainingNames, i), remainingNames, originalNames);
      remainingNames := remainingNames[..i] + remainingNames[i + 1..];
    }

    /** Appends the trimmed name unless it is empty or already listed; if it
        was appended, every name is available again. */
    method AddName(name: string)
      requires Valid()
      modifies this
      ensures Valid()
      ensures originalNames == Pool.Added(old(originalNames), name)
      ensures remainingNames ==
        if originalNames == old(originalNames) then old(remainingNames) else originalNames
    {
      var trimmed := Text.Trim(name);
      if trimmed == [] || trimmed in originalNames {
        return;
      }
      originalNames := originalNames + [trimmed];
      Reset();
    }

    /** Makes every name available again. */
    method Reset()
      modifies this
      ensures Valid()
      ensures originalNames == old(originalNames) && remainingNames == originalNames
    {
      remainingNames := originalNames;
      Seqs.SubsequenceReflexive(originalNames);
    }
  }

  class UIManager {
    const randomSelector: RandomSelector

    ghost predicate Valid()
      reads this, randomSelector
    {
      randomSelector.Valid()
    }

    constructor(randomSelector: RandomSelector)
      ensures this.randomSelector == randomSelector
    {
      this.randomSelector := randomSelector;
    }

    /** Adds every name typed into the box: blank input adds nothing; input
        with a comma adds each trimmed, non-empty comma field in order;
        other input adds the trimmed text. */
    method HandleAddName(input: string)
      requires Valid()
      modifies randomSelector
      ensures Valid()
      ensures randomSelector.originalNames ==
        Pool.AddAll(old(randomSelector.originalNames), NameInput.ParseNames(input))
      ensures randomSelector.remainingNames ==
        if randomSelector.originalNames == old(randomSelector.originalNames)
        then old(randomSelector.remainingNames) else randomSelector.originalNames
    {
      NameInput.ParseNamesOfTrimmed(input);
      var trimmed := Text.Trim(input);
      if trimmed == [] {
        return;
      }
      var names := NameInput.SplitNames(trimmed);
      AddEach(names);
    }

    /** `names.forEach((name) => this.randomSelector.addName(name))`. */
    method AddEach(names: seq<string>)
      requires Valid()
      modifies randomSelector
      ensures Valid()
      ensures randomSelector.originalNames == Pool.AddAll(old(randomSelector.originalNames), names)
      ensures randomSelector.remainingNames ==
        if randomSelector.originalNames == old(randomSelector.originalNames)
        then old(randomSelector.remainingNames) else randomSelector.originalNames
    {
      for k := 0 to |names|
        invariant Valid()
        invariant randomSelector.originalNames == Pool.AddAll(old(randomSelector.originalNames), names[..k])
        invariant randomSelector.remainingNames ==
          if randomSelector.originalNames == old(randomSelector.originalNames)
          then old(randomSelector.remainingNames) else randomSelector.originalNames
      {
        assert names[..k + 1][..k] == names[..k];
        randomSelector.AddName(names[k]);
      }
      assert names[..|names|] == names;
    }

    /** On an exhausted pool, makes every name available again and draws
        nothing; otherwise draws the name at index `i` of the remaining names. */
    method HandleSpin(i: nat) returns (chosenName: Pool.Option<string>)
      requires Valid()
      requires randomSelector.remainingNames == [] || i < |randomSelector.remainingNames|
      modifies randomSelector
      ensures Valid()
      ensures randomSelector.originalNames == old(randomSelector.originalNames)
      ensures old(randomSelector.remainingNames) == [] ==>
        chosenName == Pool.None && randomSelector.remainingNames == randomSelector.originalNames
      ensures old(randomSelector.remainingNames) != [] ==>
        chosenName == Pool.Some(old(randomSelector.remainingNames)[i]) &&
        randomSelector.remainingNames == Seqs.Remove(old(randomSelector.remainingNames), i)
    {
      var has := randomSelector.HasNamesRemaining();
      if !has {
        randomSelector.Reset();
        return Pool.None;
      }
      chosenName := randomSelector.ChooseName(i);
    }

    /** The name list: one item per listed name, marked chosen once drawn;
        with no name listed twice, as many are marked as have been drawn. */
    function NameList(): (items: seq<View.NameItem>)
      reads this, randomSelector
      ensures |items| == |randomSelector.originalNames|
      ensures forall k :: 0 <= k < |items| ==>
        items[k].name == randomSelector.originalNames[k] &&
        (items[k].chosen <==> randomSelector.originalNames[k] !in randomSelector.remainingNames)
      ensures Seqs.NoDuplicates(randomSelector.originalNames) &&
              Seqs.IsSubsequence(randomSelector.remainingNames, randomSelector.originalNames) ==>
        View.CountChosen(items) ==
        |randomSelector.originalNames| - |randomSelector.remainingNames|
    {
      View.ChosenCountIfDistinct(randomSelector.originalNames, randomSelector.remainingNames);
      View.NameItems(randomSelector.originalNames, randomSelector.remainingNames)
    }

    /** The spin button: hidden with no names, and reading "Reset ♻️" exactly
        when there are names and every one of them is marked chosen;
        otherwise it reads "Spin 🎲". */
    function SpinButton(): (b: View.SpinButton)
      requires Valid()
      reads this, randomSelector
      ensures b.hidden <==> randomSelector.originalNames == []
      ensures b.text == ResetLabel <==>
        randomSelector.originalNames != [] &&
        forall k :: 0 <= k < |randomSelector.originalNames| ==>
          View.NameItems(randomSelector.originalNames, randomSelector.remainingNames)[k].chosen
      ensures b.text != ResetLabel ==> b.text == SpinLabel
    {
      var original := randomSelector.originalNames;
      var remaining := randomSelector.remainingNames;
      View.ResetLabelWhenAllChosen(original, remaining, ResetLabel, SpinLabel);
      View.SpinButtonFor(original, remaining, ResetLabel, SpinLabel)
    }
  }
}
