/** The name pool as values: what `addName` does to the list of names, and
    what a run of `chooseName` calls draws. The class in module Selector is
    specified in terms of these functions. */
module Pool {
  import Text
  import Seqs

  /** A name, or JavaScript's `null` when there is none. */
  datatype Option<T> = None | Some(value: T)

  /** The list of names after `addName(name)`: the trimmed name is appended
      unless it is empty or already listed. */
  function Added(names: seq<string>, name: string): (r: seq<string>)
    ensures |names| <= |r| <= |names| + 1 && r[..|names|] == names
    ensures r == names <==> Text.Trim(name) == [] || Text.Trim(name) in names
    ensures r != names ==> r[|names|] == Text.Trim(name)
    ensures Text.Trim(name) != [] ==> Text.Trim(name) in r
  {
    var t := Text.Trim(name);
    if t == [] || t in names then names
    else
      assert (names + [t])[..|names|] == names;
      names + [t]
  }

  /** Adding a name never lists a name twice. */
  lemma AddedNoDuplicates(names: seq<string>, name: string)
    requires Seqs.NoDuplicates(names)
    ensures Seqs.NoDuplicates(Added(names, name))
  {
  }

  /** Adding the same name a second time changes nothing. */
  lemma AddedIdempotent(names: seq<string>, name: string)
    ensures Added(Added(names, name), name) == Added(names, name)
  {
  }

  /** The list of names after `addName` has been called on each of `pieces`,
      in order: the names already listed, followed by at most one new name
      per piece. */
  function AddAll(names: seq<string>, pieces: seq<string>): (r: seq<string>)
    ensures |names| <= |r| <= |names| + |pieces| && r[..|names|] == names
    decreases |pieces|
  {
    if pieces == [] then names
    else
      var n := |pieces| - 1;
      var before := AddAll(names, pieces[..n]);
      var r := Added(before, pieces[n]);
      assert r[..|names|] == before[..|names|];
      r
  }

  /** Adding pieces one by one never lists a name twice. */
  lemma {:induction false} AddAllNoDuplicates(names: seq<string>, pieces: seq<string>)
    requires Seqs.NoDuplicates(names)
    ensures Seqs.NoDuplicates(AddAll(names, pieces))
    decreases |pieces|
  {
    if pieces != [] {
      AddAllNoDuplicates(names, pieces[..|pieces| - 1]);
      AddedNoDuplicates(AddAll(names, pieces[..|pieces| - 1]), pieces[|pieces| - 1]);
    }
  }

  /** Every piece that is not blank is listed afterwards, trimmed. */
  lemma {:induction false} AddAllListsEveryPiece(names: seq<string>, pieces: seq<string>)
    ensures forall k :: 0 <= k < |pieces| && Text.Trim(pieces[k]) != [] ==>
      Text.Trim(pieces[k]) in AddAll(names, pieces)
    decreases |pieces|
  {
    if pieces != [] {
      var n := |pieces| - 1;
      var before := AddAll(names, pieces[..n]);
      AddAllListsEveryPiece(names, pieces[..n]);
      var r := Added(before, pieces[n]);
      assert AddAll(names, pieces) == r;
      assert before <= r;
      forall k | 0 <= k < |pieces| && Text.Trim(pieces[k]) != []
        ensures Text.Trim(pieces[k]) in r
      {
        if k < n {
          assert pieces[..n][k] == pieces[k];
          var j :| 0 <= j < |before| && before[j] == Text.Trim(pieces[k]);
          assert r[j] == before[j];
        }
      }
    }
  }

  /** Every name listed afterwards that was not listed before is a trimmed piece. */
  lemma {:induction false} AddAllListsOnlyPieces(names: seq<string>, pieces: seq<string>)
    ensures forall k :: |names| <= k < |AddAll(names, pieces)| ==>
      AddAll(names, pieces)[k] in TrimAll(pieces)
    decreases |pieces|
  {
    if pieces != [] {
      var n := |pieces| - 1;
      var before := AddAll(names, pieces[..n]);
      var r := Added(before, pieces[n]);
      AddAllListsOnlyPieces(names, pieces[..n]);
      TrimAllPrefix(pieces, n);
      forall k | |names| <= k < |r| ensures r[k] in TrimAll(pieces) {
        if k < |before| {
          assert r[k] == r[..|before|][k] == before[k];
          assert before[k] in TrimAll(pieces[..n]);
        } else {
          assert r != before && k == |before|;
          assert r[k] == Text.Trim(pieces[n]);
          assert Text.Trim(pieces[n]) in TrimAll(pieces);
        }
      }
    }
  }

  /** The trimmed pieces, as a set. */
  function TrimAll(pieces: seq<string>): set<string>
  {
    set k | 0 <= k < |pieces| :: Text.Trim(pieces[k])
  }

  lemma TrimAllPrefix(pieces: seq<string>, n: nat)
    requires n <= |pieces|
    ensures TrimAll(pieces[..n]) <= TrimAll(pieces)
  {
    forall x | x in TrimAll(pieces[..n]) ensures x in TrimAll(pieces) {
      var k :| 0 <= k < n && x == Text.Trim(pieces[..n][k]);
      assert pieces[..n][k] == pieces[k];
    }
  }

  /** Each choice is a valid index into the pool as it stands when it is
      made: the k-th draw sees a pool of `|pool| - k` names. */
  predicate ChoicesFit(pool: seq<string>, choices: seq<nat>)
  {
    forall k :: 0 <= k < |choices| ==> choices[k] < |pool| - k
  }

  /** Successive `chooseName` calls that pick the given indices: the names
      drawn, in order, and the pool left behind. */
  function DrawMany(pool: seq<string>, choices: seq<nat>): (res: (seq<string>, seq<string>))
    requires ChoicesFit(pool, choices)
    ensures |res.0| == |choices| && |res.1| == |pool| - |choices|
    ensures multiset(res.0) + multiset(res.1) == multiset(pool)
    decreases |choices|
  {
    if choices == [] then
      ([], pool)
    else
      var c := choices[0];
      var left := Seqs.Remove(pool, c);
      assert ChoicesFit(left, choices[1..]) by {
        forall k | 0 <= k < |choices[1..]| ensures choices[1..][k] < |left| - k {
          assert choices[1..][k] == choices[k + 1];
        }
      }
      var rest := DrawMany(left, choices[1..]);
      ([pool[c]] + rest.0, rest.1)
  }

  /** The names a run of draws leaves are still in their listed order. */
  lemma {:induction false} DrawManyLeavesSubsequence(pool: seq<string>, choices: seq<nat>)
    requires ChoicesFit(pool, choices)
    ensures Seqs.IsSubsequence(DrawMany(pool, choices).1, pool)
    decreases |choices|
  {
    if choices == [] {
      Seqs.SubsequenceReflexive(pool);
    } else {
      var c := choices[0];
      var left := Seqs.Remove(pool, c);
      DrawManyFirst(pool, choices);
      DrawManyLeavesSubsequence(left, choices[1..]);
      Seqs.RemoveIsSubsequence(pool, c);
      Seqs.SubsequenceTransitive(DrawMany(left, choices[1..]).1, left, pool);
    }
  }

  /** The first draw of a run: it picks `choices[0]`, and the rest of the
      run draws from what is left. */
  lemma DrawManyFirst(pool: seq<string>, choices: seq<nat>)
    requires ChoicesFit(pool, choices) && choices != []
    ensures choices[0] < |pool| && ChoicesFit(Seqs.Remove(pool, choices[0]), choices[1..])
    ensures var rest := DrawMany(Seqs.Remove(pool, choices[0]), choices[1..]);
      DrawMany(pool, choices) == ([pool[choices[0]]] + rest.0, rest.1)
  {
  }

  /** DrawManyFirst for the run that starts at `choices[k]`. */
  lemma DrawManyAt(pool: seq<string>, choices: seq<nat>, k: nat)
    requires k < |choices| && ChoicesFit(pool, choices[k..])
    ensures choices[k] < |pool| && ChoicesFit(Seqs.Remove(pool, choices[k]), choices[k + 1..])
    ensures var rest := DrawMany(Seqs.Remove(pool, choices[k]), choices[k + 1..]);
      DrawMany(pool, choices[k..]) == ([pool[choices[k]]] + rest.0, rest.1)
  {
    var tail := choices[k..];
    assert tail[0] == choices[k] && tail[1..] == choices[k + 1..];
    DrawManyFirst(pool, tail);
  }

  /** Drawing from a duplicate-free pool never yields the same name twice. */
  lemma {:induction false} DrawManyNoRepeats(pool: seq<string>, choices: seq<nat>)
    requires ChoicesFit(pool, choices) && Seqs.NoDuplicates(pool)
    ensures Seqs.NoDuplicates(DrawMany(pool, choices).0)
    decreases |choices|
  {
    if choices != [] {
      var c := choices[0];
      var left := Seqs.Remove(pool, c);
      var rest := DrawMany(left, choices[1..]);
      Seqs.RemoveIsSubsequence(pool, c);
      Seqs.SubsequenceNoDuplicates(left, pool);
      DrawManyNoRepeats(left, choices[1..]);
      Seqs.RemoveMembership(pool, c, pool[c]);
      assert multiset(rest.0) <= multiset(left);
      assert pool[c] !in multiset(left);
      assert pool[c] !in rest.0;
      Seqs.NoDuplicatesCons(pool[c], rest.0);
    }
  }

  /** Sampling without replacement: as many draws as there are names yield
      every name of the pool exactly as often as it is listed, empty the pool,
      and from a duplicate-free pool never repeat a name. */
  lemma DrainYieldsEachNameOnce(pool: seq<string>, choices: seq<nat>)
    requires ChoicesFit(pool, choices) && |choices| == |pool|
    ensures DrawMany(pool, choices).1 == []
    ensures multiset(DrawMany(pool, choices).0) == multiset(pool)
    ensures Seqs.NoDuplicates(pool) ==> Seqs.NoDuplicates(DrawMany(pool, choices).0)
  {
    if Seqs.NoDuplicates(pool) {
      DrawManyNoRepeats(pool, choices);
    }
  }
}
