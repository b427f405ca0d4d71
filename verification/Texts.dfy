/** Texts in pieces. */
module Texts {
  function Concat(pieces: seq<string>): string {
    if pieces == [] then "" else pieces[0] + Concat(pieces[1..])
  }

  lemma ConcatOne(piece: string)
    ensures Concat([piece]) == piece
  {
    assert Concat([]) == "";
  }

  lemma {:induction false} ConcatBoth(first: seq<string>, second: seq<string>)
    ensures Concat(first + second) == Concat(first) + Concat(second)
  {
    if first == [] {
      assert first + second == second;
    } else {
      assert (first + second)[1..] == first[1..] + second;
      ConcatBoth(first[1..], second);
    }
  }

  lemma ConcatAppend(pieces: seq<string>, last: string)
    ensures Concat(pieces + [last]) == Concat(pieces) + last
  {
    ConcatOne(last);
    hide Concat;
    ConcatBoth(pieces, [last]);
  }
}
