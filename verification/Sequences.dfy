/** Pieces put end to end. */
module Sequences {

  function Joined<T>(pieces: seq<seq<T>>): seq<T> {
    if pieces == [] then [] else pieces[0] + Joined(pieces[1..])
  }

  lemma {:induction false} JoinedSplit<T>(pieces: seq<seq<T>>, i: nat)
    requires i <= |pieces|
    ensures Joined(pieces) == Joined(pieces[..i]) + Joined(pieces[i..])
  {
    if i == 0 {
      assert pieces[..0] == [] && pieces[0..] == pieces;
    } else {
      JoinedSplit(pieces[1..], i - 1);
      assert pieces[1..][..i - 1] == pieces[..i][1..] && pieces[1..][i - 1..] == pieces[i..];
      assert pieces[..i][0] == pieces[0];
    }
  }

  /** From the other end. */
  lemma JoinedLast<T>(pieces: seq<seq<T>>)
    requires pieces != []
    ensures Joined(pieces) == Joined(pieces[..|pieces| - 1]) + pieces[|pieces| - 1]
  {
    var n := |pieces| - 1;
    JoinedSplit(pieces, n);
    assert pieces[n..] == [pieces[n]] && [pieces[n]][1..] == [];
    assert Joined([pieces[n]]) == pieces[n] + [];
  }

  lemma JoinedNext<T>(pieces: seq<seq<T>>, i: nat)
    requires i < |pieces|
    ensures Joined(pieces[..i + 1]) == Joined(pieces[..i]) + pieces[i]
  {
    JoinedLast(pieces[..i + 1]);
    assert pieces[..i + 1][..i] == pieces[..i];
  }
}
