/** The decisions of src/modules/UIManager.js without the DOM: what the
    add, clear and spin buttons do to the name pool, and the name list and
    spin button the page derives from it. The selection animation is taken
    to run to completion before anything else happens, so a spin is one step. */
module Controller {
  import Seqs
  import Pool
  import Text
  import View
  import NameInput
  import Selector

  const ResetLabel: string := "Reset"
  const PlayLabel: string := "Play \U{1F3B2}"

  class UIManager {
    const randomSelector: Selector.RandomSelector

    ghost predicate Valid()
      reads this, randomSelector
    {
      randomSelector.Valid()
    }

    constructor(randomSelector: Selector.RandomSelector)
      ensures this.randomSelector == randomSelector
    {
      this.randomSelector := randomSelector;
    }

    /** Adds every name typed into the box: blank input adds nothing; input
        with a comma adds each trimmed, non-empty comma field in order;
        other input adds the trimmed text. */
    method HandleAddName(input: string)
      requires Valid()
      modifies randomSelector
      ensures Valid()
      ensures randomSelector.originalNames ==
        Pool.AddAll(old(randomSelector.originalNames), NameInput.ParseNames(input))
      ensures randomSelector.remainingNames ==
        if randomSelector.originalNames == old(randomSelector.originalNames)
        then old(randomSelector.remainingNames) else randomSelector.originalNames
    {
      NameInput.ParseNamesOfTrimmed(input);
      var trimmed := Text.Trim(input);
      if trimmed == [] {
        return;
      }
      var names := NameInput.SplitNames(trimmed);
      AddEach(names);
    }

    /** `names.forEach((name) => this.randomSelector.addName(name))`. */
    method AddEach(names: seq<string>)
      requires Valid()
      modifies randomSelector
      ensures Valid()
      ensures randomSelector.originalNames == Pool.AddAll(old(randomSelector.originalNames), names)
      ensures randomSelector.remainingNames ==
        if randomSelector.originalNames == old(randomSelector.originalNames)
        then old(randomSelector.remainingNames) else randomSelector.originalNames
    {
      for k := 0 to |names|
        invariant Valid()
        invariant randomSelector.originalNames == Pool.AddAll(old(randomSelector.originalNames), names[..k])
        invariant randomSelector.remainingNames ==
          if randomSelector.originalNames == old(randomSelector.originalNames)
          then old(randomSelector.remainingNames) else randomSelector.originalNames
      {
        assert names[..k + 1][..k] == names[..k];
        randomSelector.AddName(names[k]);
      }
      assert names[..|names|] == names;
    }

    /** Forgets every name. */
    method HandleClear()
      requires Valid()
      modifies randomSelector
      ensures Valid()
      ensures randomSelector.originalNames == [] && randomSelector.remainingNames == []
    {
      randomSelector.Clear();
    }

    /** On an exhausted pool, makes every name available again and draws
        nothing; otherwise draws the name at index `i` of the remaining names. */
    method HandleSpin(i: nat) returns (chosenName: Pool.Option<string>)
      requires Valid()
      requires randomSelector.remainingNames == [] || i < |randomSelector.remainingNames|
      modifies randomSelector
      ensures Valid()
      ensures randomSelector.originalNames == old(randomSelector.originalNames)
      ensures old(randomSelector.remainingNames) == [] ==>
        chosenName == Pool.None && randomSelector.remainingNames == randomSelector.originalNames
      ensures old(randomSelector.remainingNames) != [] ==>
        chosenName == Pool.Some(old(randomSelector.remainingNames)[i]) &&
        randomSelector.remainingNames == Seqs.Remove(old(randomSelector.remainingNames), i)
    {
      var has := randomSelector.HasNamesRemaining();
      if !has {
        randomSelector.Reset();
        return Pool.None;
      }
      chosenName := randomSelector.ChooseName(i);
    }

    /** The name list: one item per listed name, marked chosen once drawn;
        with no name listed twice, as many are marked as have been drawn. */
    function NameList(): (items: seq<View.NameItem>)
      reads this, randomSelector
      ensures |items| == |randomSelector.originalNames|
      ensures forall k :: 0 <= k < |items| ==>
        items[k].name == randomSelector.originalNames[k] &&
        (items[k].chosen <==> randomSelector.originalNames[k] !in randomSelector.remainingNames)
      ensures Seqs.NoDuplicates(randomSelector.originalNames) &&
              Seqs.IsSubsequence(randomSelector.remainingNames, randomSelector.originalNames) ==>
        View.CountChosen(items) ==
        |randomSelector.originalNames| - |randomSelector.remainingNames|
    {
      View.ChosenCountIfDistinct(randomSelector.originalNames, randomSelector.remainingNames);
      View.NameItems(randomSelector.originalNames, randomSelector.remainingNames)
    }

    /** The spin button: hidden with no names, and reading Reset exactly
        when there are names and every one of them is marked chosen. */
    function SpinButton(): (b: View.SpinButton)
      requires Valid()
      reads this, randomSelector
      ensures b.hidden <==> randomSelector.originalNames == []
      ensures b.text == ResetLabel <==>
        randomSelector.originalNames != [] &&
        forall k :: 0 <= k < |randomSelector.originalNames| ==>
          View.NameItems(randomSelector.originalNames, randomSelector.remainingNames)[k].chosen
      ensures b.text != ResetLabel ==> b.text == PlayLabel
    {
      var original := randomSelector.originalNames;
      var remaining := randomSelector.remainingNames;
      View.ResetLabelWhenAllChosen(original, remaining, ResetLabel, PlayLabel);
      View.SpinButtonFor(original, remaining, ResetLabel, PlayLabel)
    }
  }
}
