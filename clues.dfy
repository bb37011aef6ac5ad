/**
 * The clue list of app.js and its four mutations: `addClue`, `removeClue`,
 * `toggleClue` and `clearClues`. The list itself is the state; rendering and
 * the re-run of the search after each change are not part of this model.
 */
module Clues {
  import opened Text
  import opened RecordMatcher

  /** The shortest clue text `addClue` accepts. */
  const MinClueLength: nat := 2

  /** `target === "q" ? "a" : "q"`. */
  function Flip(t: Target): Target {
    if t == Q then A else Q
  }

  /** Every clue was accepted by `addClue`: trimmed and long enough. */
  predicate WellFormed(clues: seq<Clue>) {
    forall c :: c in clues ==> |c.text| >= MinClueLength && Trim(c.text) == c.text
  }

  /** The clue list after `addClue` with the given input text. */
  function Added(clues: seq<Clue>, input: string, target: Target): seq<Clue> {
    var text := Trim(input);
    if |text| < MinClueLength then clues else clues + [Clue(text, target)]
  }

  /** The clue list after `clues.splice(index, 1)`: an index past the end
      removes nothing. */
  function Removed(clues: seq<Clue>, index: nat): seq<Clue> {
    if index < |clues| then clues[..index] + clues[index + 1..] else clues
  }

  /** The clue list after `toggleClue(index)`. */
  function Toggled(clues: seq<Clue>, index: nat): seq<Clue>
    requires index < |clues|
  {
    clues[index := Clue(clues[index].text, Flip(clues[index].target))]
  }

  /** The global `clues` array. */
  class ClueList {
    var clues: seq<Clue>

    constructor()
      ensures clues == []
    {
      clues := [];
    }

    /** `addClue`: trims the input; text shorter than two characters is
        refused and leaves the list as it was. */
    method AddClue(input: string, target: Target) returns (added: bool)
      modifies this
      ensures added <==> |Trim(input)| >= MinClueLength
      ensures clues == Added(old(clues), input, target)
    {
      var text := Trim(input);
      if text == [] || |text| < MinClueLength {
        return false;
      }
      clues := clues + [Clue(text, target)];
      added := true;
    }

    /** `removeClue`. */
    method RemoveClue(index: nat)
      modifies this
      ensures clues == Removed(old(clues), index)
    {
      if index < |clues| {
        clues := clues[..index] + clues[index + 1..];
      }
    }

    /** `toggleClue`; an index past the end is a TypeError in the source. */
    method ToggleClue(index: nat)
      requires index < |clues|
      modifies this
      ensures clues == Toggled(old(clues), index)
    {
      var clue := clues[index];
      clues := clues[index := Clue(clue.text, Flip(clue.target))];
    }

    /** `clearClues`. */
    method ClearClues()
      modifies this
      ensures clues == []
    {
      clues := [];
    }
  }

  // ---- Properties ----

  /** `addClue` refuses exactly the inputs that trim to fewer than two
      characters; otherwise it appends the trimmed text at the end, keeping
      every earlier clue in place, and keeps the list well formed. */
  lemma AddedSpec(clues: seq<Clue>, input: string, target: Target)
    ensures var r := Added(clues, input, target);
      && (r == clues <==> |Trim(input)| < MinClueLength)
      && (|Trim(input)| >= MinClueLength ==>
            |r| == |clues| + 1 && r[..|clues|] == clues && r[|clues|] == Clue(Trim(input), target))
      && (WellFormed(clues) ==> WellFormed(r))
  {
    TrimIsTrimmed(input);
    var r := Added(clues, input, target);
    if |Trim(input)| >= MinClueLength {
      assert |r| != |clues|;
      assert r[..|clues|] == clues;
    }
  }

  /** `removeClue(i)` deletes exactly clue `i`: the clues before it stay in
      place, the clues after it move down by one, and nothing else changes. */
  lemma RemovedSpec(clues: seq<Clue>, index: nat)
    requires index < |clues|
    ensures var r := Removed(clues, index);
      && |r| == |clues| - 1
      && (forall k :: 0 <= k < index ==> r[k] == clues[k])
      && (forall k :: index <= k < |r| ==> r[k] == clues[k + 1])
      && (WellFormed(clues) ==> WellFormed(r))
      && multiset(r) + multiset{clues[index]} == multiset(clues)
  {
    var r := Removed(clues, index);
    assert clues == clues[..index] + [clues[index]] + clues[index + 1..];
    forall c | c in r
      ensures c in clues
    {
    }
  }

  /** `toggleClue(i)` flips the target of clue `i` only; its text and every
      other clue are unchanged, and toggling twice restores the list. */
  lemma ToggledSpec(clues: seq<Clue>, index: nat)
    requires index < |clues|
    ensures var r := Toggled(clues, index);
      && |r| == |clues|
      && r[index].text == clues[index].text
      && r[index].target != clues[index].target
      && (forall k :: 0 <= k < |clues| && k != index ==> r[k] == clues[k])
      && Toggled(r, index) == clues
      && (WellFormed(clues) ==> WellFormed(r))
  {
    var r := Toggled(clues, index);
    assert Flip(Flip(clues[index].target)) == clues[index].target;
    forall c | c in r
      ensures c in clues || c.text == clues[index].text
    {
    }
  }
}
