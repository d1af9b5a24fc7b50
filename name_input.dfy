/** How `handleAddName` turns the text typed into the name box into the
    names it passes to `addName`: trimmed input with a comma is split on
    commas, each field trimmed and empty fields dropped; input without a
    comma is one name; blank input is no name at all. */
module NameInput {
  import Text
  import Seqs

  /** `fields.map((name) => name.trim())`. */
  function TrimEach(fields: seq<string>): (r: seq<string>)
    ensures |r| == |fields|
    ensures forall k :: 0 <= k < |r| ==> r[k] == Text.Trim(fields[k])
    decreases |fields|
  {
    if fields == [] then []
    else [Text.Trim(fields[0])] + TrimEach(fields[1..])
  }

  /** `fields.filter((name) => name !== "")`: the non-empty fields, in order. */
  function DropEmpty(fields: seq<string>): (r: seq<string>)
    ensures forall k :: 0 <= k < |r| ==> r[k] != []
    ensures Seqs.IsSubsequence(r, fields)
    ensures multiset(r) == multiset(fields)[[] := 0]
    decreases |fields|
  {
    if fields == [] then []
    else
      var rest := DropEmpty(fields[1..]);
      Seqs.MultisetWithoutCons(fields, []);
      assert forall k :: 1 <= k < |fields| ==> fields[k] == fields[1..][k - 1];
      if fields[0] == [] then rest
      else
        var r := [fields[0]] + rest;
        assert r[1..] == rest;
        r
  }

  /** The contract of DropEmpty fixes its result: any subsequence of the
      fields holding exactly their non-empty entries is that result. */
  lemma DropEmptyIsFilter(fields: seq<string>, other: seq<string>)
    requires Seqs.IsSubsequence(other, fields) && multiset(other) == multiset(fields)[[] := 0]
    ensures other == DropEmpty(fields)
  {
    Seqs.FilterUnique(other, DropEmpty(fields), fields, []);
  }

  /** The filter keeps every non-empty field. */
  lemma DropEmptyKeepsNonEmpty(fields: seq<string>)
    ensures forall k :: 0 <= k < |fields| && fields[k] != [] ==> fields[k] in DropEmpty(fields)
  {
    forall k | 0 <= k < |fields| && fields[k] != []
      ensures fields[k] in DropEmpty(fields)
    {
      assert fields[k] in multiset(fields);
      assert fields[k] in multiset(DropEmpty(fields));
    }
  }

  /** The names taken from input that is already trimmed and not empty:
      with a comma, exactly the non-empty trimmed comma fields, in order;
      without one, the input itself. */
  function SplitNames(input: string): (names: seq<string>)
    ensures ',' !in input ==> names == [input]
    ensures ',' in input ==>
      var trimmed := TrimEach(Text.Split(input, ','));
      Seqs.IsSubsequence(names, trimmed) && multiset(names) == multiset(trimmed)[[] := 0]
  {
    if ',' in input then DropEmpty(TrimEach(Text.Split(input, ','))) else [input]
  }

  /** The names `handleAddName` passes to `addName`, in order, for the raw
      text `raw` of the name box. */
  function ParseNames(raw: string): (names: seq<string>)
    ensures forall k :: 0 <= k < |names| ==> names[k] != [] && Text.Trim(names[k]) == names[k]
    ensures Text.Trim(raw) == [] ==> names == []
    ensures Text.Trim(raw) != [] && ',' !in Text.Trim(raw) ==> names == [Text.Trim(raw)]
    ensures ',' in Text.Trim(raw) ==>
      var fields := Text.Split(Text.Trim(raw), ',');
      (forall k :: 0 <= k < |names| ==> ',' !in names[k]) &&
      Seqs.IsSubsequence(names, TrimEach(fields)) &&
      multiset(names) == multiset(TrimEach(fields))[[] := 0] &&
      (forall k :: 0 <= k < |fields| && Text.Trim(fields[k]) != [] ==> Text.Trim(fields[k]) in names)
  {
    var input := Text.Trim(raw);
    Text.TrimIdempotent(raw);
    if input == [] then []
    else if ',' in input then
      CommaNames(input);
      CommaFields(input);
      SplitNames(input)
    else
      [input]
  }

  /** What `handleAddName` does before it calls `addName`: blank input gives
      no names, other input the names split from its trimmed text. */
  lemma ParseNamesOfTrimmed(raw: string)
    ensures Text.Trim(raw) == [] ==> ParseNames(raw) == []
    ensures Text.Trim(raw) != [] ==> ParseNames(raw) == SplitNames(Text.Trim(raw))
  {
  }

  /** With a comma, every non-empty trimmed field is among the names. */
  lemma CommaFields(input: string)
    requires ',' in input
    ensures var fields := Text.Split(input, ',');
      Seqs.IsSubsequence(SplitNames(input), TrimEach(fields)) &&
      (forall k :: 0 <= k < |fields| && Text.Trim(fields[k]) != [] ==> Text.Trim(fields[k]) in SplitNames(input))
  {
    var fields := Text.Split(input, ',');
    var trimmed := TrimEach(fields);
    DropEmptyKeepsNonEmpty(trimmed);
    forall k | 0 <= k < |fields| && Text.Trim(fields[k]) != []
      ensures Text.Trim(fields[k]) in SplitNames(input)
    {
      assert trimmed[k] == Text.Trim(fields[k]);
    }
  }

  /** With a comma, every name is a trimmed, non-empty, comma-free field. */
  lemma CommaNames(input: string)
    requires ',' in input
    ensures var names := SplitNames(input);
      forall k :: 0 <= k < |names| ==>
        names[k] != [] && ',' !in names[k] && Text.Trim(names[k]) == names[k]
  {
    var fields := Text.Split(input, ',');
    var trimmed := TrimEach(fields);
    var names := DropEmpty(trimmed);
    Seqs.SubsequenceMultiset(names, trimmed);
    forall k | 0 <= k < |names|
      ensures names[k] != [] && ',' !in names[k] && Text.Trim(names[k]) == names[k]
    {
      assert names[k] in trimmed;
      var j :| 0 <= j < |trimmed| && trimmed[j] == names[k];
      TrimNoNewSeparator(fields[j], ',');
      Text.TrimIdempotent(fields[j]);
    }
  }

  /** Trimming never introduces a character, so it never introduces a comma. */
  lemma TrimNoNewSeparator(s: string, sep: char)
    requires sep !in s
    ensures sep !in Text.Trim(s)
  {
    var r := Text.Trim(s);
    var a := Text.TrimOffset(s);
    Text.TrimIsSlice(s);
    forall k | 0 <= k < |r| ensures r[k] != sep {
      assert r[k] == s[a + k];
    }
  }
}
