/** What the page shows of the pool, without the DOM: one list item per
    listed name, marked "chosen" when it has been drawn, and the spin button,
    hidden when there are no names and labelled "Reset" once every name
    has been drawn. */
module View {
  import Seqs

  /** One `li` of the name list: its text and whether it carries the
      `chosenName` class. */
  datatype NameItem = NameItem(name: string, chosen: bool)

  /** The name list `updateNameList` renders, one item per listed name, in order. */
  function NameItems(original: seq<string>, remaining: seq<string>): (items: seq<NameItem>)
    ensures |items| == |original|
    ensures forall k :: 0 <= k < |items| ==>
      items[k].name == original[k] && (items[k].chosen <==> original[k] !in remaining)
    decreases |original|
  {
    if original == [] then []
    else [NameItem(original[0], original[0] !in remaining)] + NameItems(original[1..], remaining)
  }

  /** How many items are marked chosen. */
  function CountChosen(items: seq<NameItem>): nat
    decreases |items|
  {
    if items == [] then 0
    else (if items[0].chosen then 1 else 0) + CountChosen(items[1..])
  }

  /** When nothing is left, every listed name is marked. */
  lemma {:induction false} AllChosenWhenExhausted(original: seq<string>)
    ensures CountChosen(NameItems(original, [])) == |original|
    decreases |original|
  {
    if original != [] {
      AllChosenWhenExhausted(original[1..]);
    }
  }

  /** Marks depend only on which names remain, not on their order or on
      remaining names that are not listed. */
  lemma NameItemsIgnoreUnlisted(original: seq<string>, x: string, remaining: seq<string>)
    requires x !in original
    ensures NameItems(original, [x] + remaining) == NameItems(original, remaining)
  {
  }

  /** With duplicate-free names and the remaining names a subsequence of
      them, exactly as many names are marked chosen as have been drawn. */
  lemma {:induction false} ChosenCountIsDrawCount(original: seq<string>, remaining: seq<string>)
    requires Seqs.NoDuplicates(original) && Seqs.IsSubsequence(remaining, original)
    ensures CountChosen(NameItems(original, remaining)) == |original| - |remaining|
    decreases |original|
  {
    if remaining == [] {
      AllChosenWhenExhausted(original);
    } else {
      var tail := original[1..];
      assert original == [original[0]] + tail;
      Seqs.NoDuplicatesCons(original[0], tail);
      assert NameItems(original, remaining)[1..] == NameItems(tail, remaining);
      if Seqs.IsSubsequence(remaining, tail) {
        Seqs.SubsequenceMultiset(remaining, tail);
        ChosenCountIsDrawCount(tail, remaining);
        assert |remaining| <= |tail|;
      } else {
        assert remaining[0] == original[0];
        assert remaining == [remaining[0]] + remaining[1..];
        NameItemsIgnoreUnlisted(tail, original[0], remaining[1..]);
        ChosenCountIsDrawCount(tail, remaining[1..]);
      }
    }
  }

  /** ChosenCountIsDrawCount as an implication, for callers that do not
      know whether its conditions hold. */
  lemma ChosenCountIfDistinct(original: seq<string>, remaining: seq<string>)
    ensures Seqs.NoDuplicates(original) && Seqs.IsSubsequence(remaining, original) ==>
      CountChosen(NameItems(original, remaining)) == |original| - |remaining|
  {
    if Seqs.NoDuplicates(original) && Seqs.IsSubsequence(remaining, original) {
      ChosenCountIsDrawCount(original, remaining);
    }
  }

  /** Drawing `remaining[i]` marks exactly that name and leaves every other
      mark as it was. */
  lemma DrawMarksOneName(original: seq<string>, remaining: seq<string>, i: nat)
    requires Seqs.NoDuplicates(original) && Seqs.IsSubsequence(remaining, original)
    requires i < |remaining|
    ensures remaining[i] in original
    ensures forall k :: 0 <= k < |original| ==>
      NameItems(original, Seqs.Remove(remaining, i))[k].chosen ==
      (NameItems(original, remaining)[k].chosen || original[k] == remaining[i])
  {
    Seqs.SubsequenceMultiset(remaining, original);
    Seqs.SubsequenceNoDuplicates(remaining, original);
    forall k | 0 <= k < |original| ensures
      NameItems(original, Seqs.Remove(remaining, i))[k].chosen ==
      (NameItems(original, remaining)[k].chosen || original[k] == remaining[i])
    {
      Seqs.RemoveMembership(remaining, i, original[k]);
    }
  }

  /** The spin button as `updateSpinButtonText` leaves it. */
  datatype SpinButton = SpinButton(hidden: bool, text: string)

  /** The button for a pool, given the two labels of the page. */
  function SpinButtonFor(original: seq<string>, remaining: seq<string>,
                         resetLabel: string, playLabel: string): (b: SpinButton)
    ensures b.hidden <==> original == []
    ensures b.text == resetLabel || b.text == playLabel
  {
    SpinButton(|original| < 1,
               if remaining == [] && |original| > 0 then resetLabel else playLabel)
  }

  /** With the remaining names drawn from the listed ones, the pool is
      exhausted exactly when every listed name is marked chosen. */
  lemma ExhaustedWhenAllChosen(original: seq<string>, remaining: seq<string>)
    requires Seqs.IsSubsequence(remaining, original)
    ensures remaining == [] <==>
      forall k :: 0 <= k < |original| ==> NameItems(original, remaining)[k].chosen
  {
    if remaining != [] {
      Seqs.SubsequenceMultiset(remaining, original);
      assert remaining[0] in original;
      var k :| 0 <= k < |original| && original[k] == remaining[0];
      assert !NameItems(original, remaining)[k].chosen;
    }
  }

  /** With distinct labels and the remaining names drawn from the listed
      ones, the button reads Reset exactly when there are names and every
      one of them is marked chosen; otherwise it reads Play. */
  lemma ResetLabelWhenAllChosen(original: seq<string>, remaining: seq<string>,
                                resetLabel: string, playLabel: string)
    requires Seqs.IsSubsequence(remaining, original) && resetLabel != playLabel
    ensures SpinButtonFor(original, remaining, resetLabel, playLabel).text == resetLabel <==>
      original != [] && forall k :: 0 <= k < |original| ==> NameItems(original, remaining)[k].chosen
  {
    ExhaustedWhenAllChosen(original, remaining);
  }
}
