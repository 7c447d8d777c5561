/** Lists of scopes: merging grants and checking coverage (storage_interactions.go). */
module Scopes {

  ghost predicate IsDuplicateFree(xs: seq<string>) { forall i, j :: 0 <= i < j < |xs| ==> xs[i] != xs[j] }

  /** The additions not yet present, one after the other. */
  function Merged(existing: seq<string>, additions: seq<string>): seq<string>
    decreases |additions|
  {
    if additions == [] then existing
    else Merged(if additions[0] in existing then existing else existing + [additions[0]], additions[1..])
  }

  /** Merging keeps the old list as a prefix, loses and invents nothing, and repeats nothing new. */
  lemma {:induction false} MergedExtends(existing: seq<string>, additions: seq<string>)
    ensures existing <= Merged(existing, additions)
    ensures forall x :: x in Merged(existing, additions) <==> x in existing || x in additions
    ensures IsDuplicateFree(existing) ==> IsDuplicateFree(Merged(existing, additions))
    ensures (forall x :: x in additions ==> x in existing) ==> Merged(existing, additions) == existing
    decreases |additions|
  {
    if additions != [] {
      MergedExtends(if additions[0] in existing then existing else existing + [additions[0]], additions[1..]);
      assert additions == [additions[0]] + additions[1..];
    }
  }

  /** New entries come in the order in which the additions name them first. */
  lemma {:induction false} MergedKeepsOrder(existing: seq<string>, additions: seq<string>, i: nat, j: nat)
    requires i < j < |additions| && additions[i] !in existing && additions[j] !in existing && additions[j] !in additions[..j]
    ensures exists a, b :: |existing| <= a < b < |Merged(existing, additions)|
              && Merged(existing, additions)[a] == additions[i] && Merged(existing, additions)[b] == additions[j]
    decreases |additions|
  {
    var next := if additions[0] in existing then existing else existing + [additions[0]];
    var rest := additions[1..];
    assert Merged(existing, additions) == Merged(next, rest);
    assert additions[..j] == [additions[0]] + rest[..j-1];
    MergedExtends(next, rest);
    var whole := Merged(next, rest);
    if additions[0] == additions[i] {
      assert additions[j] in rest && additions[j] in whole;
      var b :| 0 <= b < |whole| && whole[b] == additions[j];
      assert whole[|existing|] == additions[i];
      assert b >= |next| by { assert forall k :: 0 <= k < |next| ==> whole[k] == next[k]; }
    } else {
      MergedKeepsOrder(next, rest, i - 1, j - 1);
      var a, b :| |next| <= a < b < |whole| && whole[a] == additions[i] && whole[b] == additions[j];
    }
  }

  /** mergeScopes. */
  method MergeScopes(existing: seq<string>, additions: seq<string>) returns (out: seq<string>)
    ensures out == Merged(existing, additions)
    ensures existing <= out && forall x :: x in out <==> x in existing || x in additions
  {
    out := existing;
    for i := 0 to |additions|
      invariant Merged(out, additions[i..]) == Merged(existing, additions)
    {
      if additions[i] !in out { out := out + [additions[i]]; }
    }
    MergedExtends(existing, additions);
  }

  /** The request asks for nothing beyond the grant. */
  predicate Covers(granted: seq<string>, requested: seq<string>) { forall x :: x in requested ==> x in granted }

  /** ConsentCovers: nothing requested is always covered. */
  method ConsentCovers(granted: seq<string>, requested: seq<string>) returns (covers: bool)
    ensures covers <==> Covers(granted, requested)
  {
    for i := 0 to |requested|
      invariant Covers(granted, requested[..i])
    {
      if requested[i] !in granted { return false; }
    }
    covers := true;
    assert requested[..|requested|] == requested;
  }
}
