/** Data delivered in pieces: a list of pieces and the data it adds up to. */
module Pieces {
  import opened Bytes

  function Flatten(pieces: seq<seq<byte>>): seq<byte> {
    if pieces == [] then [] else Flatten(pieces[..|pieces| - 1]) + pieces[|pieces| - 1]
  }

  lemma FlattenNext(pieces: seq<seq<byte>>, i: nat)
    requires i < |pieces|
    ensures Flatten(pieces[..i + 1]) == Flatten(pieces[..i]) + pieces[i]
  {
    assert pieces[..i + 1][..i] == pieces[..i];
  }

  lemma {:induction false} FlattenLength(pieces: seq<seq<byte>>, i: nat)
    requires i <= |pieces|
    ensures |Flatten(pieces[..i])| <= |Flatten(pieces)|
    decreases |pieces| - i
  {
    if i == |pieces| {
      assert pieces[..i] == pieces;
    } else {
      FlattenNext(pieces, i);
      FlattenLength(pieces, i + 1);
    }
  }

  lemma FlattenStart(pieces: seq<seq<byte>>)
    ensures Flatten(pieces[..0]) == []
  {
  }

  function FlattenedLength(pieces: seq<seq<byte>>): (n: nat)
    ensures n == |Flatten(pieces)|
  {
    if pieces == [] then 0 else FlattenedLength(pieces[..|pieces| - 1]) + |pieces[|pieces| - 1]|
  }

  /** Cutting data into pieces of given sizes; what is left is the last piece. */
  function Cut(data: seq<byte>, sizes: seq<nat>): (pieces: seq<seq<byte>>)
    decreases sizes
  {
    if sizes == [] || sizes[0] > |data| then [data] else [data[..sizes[0]]] + Cut(data[sizes[0]..], sizes[1..])
  }

  lemma {:induction false} FlattenCut(data: seq<byte>, sizes: seq<nat>)
    ensures Flatten(Cut(data, sizes)) == data
    decreases sizes
  {
    if sizes == [] || sizes[0] > |data| {
      assert Flatten([data][..0]) == [];
    } else {
      FlattenCut(data[sizes[0]..], sizes[1..]);
      FlattenFront(data[..sizes[0]], Cut(data[sizes[0]..], sizes[1..]));
    }
  }

  lemma {:induction false} FlattenFront(first: seq<byte>, rest: seq<seq<byte>>)
    ensures Flatten([first] + rest) == first + Flatten(rest)
    decreases rest
  {
    var all := [first] + rest;
    if rest == [] {
      assert all[..0] == [] && Flatten(all[..0]) == [];
    } else {
      FlattenFront(first, rest[..|rest| - 1]);
      assert all[..|all| - 1] == [first] + rest[..|rest| - 1];
    }
  }
}
