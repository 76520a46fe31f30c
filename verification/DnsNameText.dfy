/** What the text of a decoded name tells about its labels. */
module DnsNameText {
  import opened Common
  import opened DnsName

  /** The pieces between the dots. */
  function Pieces(name: seq<byte>): (r: seq<seq<byte>>)
    ensures r != []
  {
    if name == [] then [[]]
    else
      var rest := Pieces(name[1..]);
      if name[0] == 0x2E then [[]] + rest else [[name[0]] + rest[0]] + rest[1..]
  }

  lemma {:induction false} PiecesHaveNoDot(name: seq<byte>, i: nat)
    requires i < |Pieces(name)|
    ensures 0x2E !in Pieces(name)[i]
  {
    if name != [] {
      var rest := Pieces(name[1..]);
      if name[0] == 0x2E {
        if i > 0 {
          PiecesHaveNoDot(name[1..], i - 1);
        }
      } else {
        PiecesHaveNoDot(name[1..], i);
      }
    }
  }

  lemma {:induction false} FirstPiece(head: seq<byte>, name: seq<byte>)
    requires 0x2E !in head
    ensures Pieces(head) == [head]
    ensures Pieces(head + [0x2E] + name) == [head] + Pieces(name)
  {
    var all := head + [0x2E] + name;
    if head == [] {
      assert all[1..] == name;
    } else {
      assert head[0] in head;
      FirstPiece(head[1..], name);
      assert all[1..] == head[1..] + [0x2E] + name;
      assert [head[0]] + head[1..] == head;
    }
  }

  /** Labels are joined by the byte 0x2E, seen from the front. */
  lemma {:induction false} DotsBetween(head: seq<byte>, labels: seq<seq<byte>>)
    ensures DotJoin([head] + labels) == if labels == [] then head else head + [0x2E] + DotJoin(labels)
    decreases |labels|
  {
    if labels == [] {
      assert [head] + labels == [head];
    } else {
      assert Init([head] + labels) == [head] + Init(labels);
      DotsBetween(head, Init(labels));
      assert |labels| == 1 ==> Init(labels) == [];
    }
  }

  lemma {:induction false} PlainLabelsComeBack(labels: seq<seq<byte>>)
    requires labels != [] && forall i :: 0 <= i < |labels| ==> 0x2E !in labels[i]
    ensures Pieces(DotJoin(labels)) == labels
    decreases |labels|
  {
    hide DotJoin, Pieces;
    var first, rest := labels[0], labels[1..];
    assert labels == [first] + rest;
    DotsBetween(first, rest);
    FirstPiece(first, DotJoin(rest));
    if rest != [] {
      PlainLabelsComeBack(rest);
    }
  }

  /** The labels can be read off a decoded name if and only if none of them contains a dot; the code does not escape
      it. */
  lemma LabelsComeBackIff(labels: seq<seq<byte>>)
    requires labels != []
    ensures Pieces(DotJoin(labels)) == labels <==> forall i :: 0 <= i < |labels| ==> 0x2E !in labels[i]
  {
    hide DotJoin, Pieces;
    if Pieces(DotJoin(labels)) == labels {
      forall i | 0 <= i < |labels|
        ensures 0x2E !in labels[i]
      {
        PiecesHaveNoDot(DotJoin(labels), i);
      }
    }
    if forall i :: 0 <= i < |labels| ==> 0x2E !in labels[i] {
      PlainLabelsComeBack(labels);
    }
  }

  /** One label "a.b" and the two labels "a" and "b" give the same name. */
  lemma DotInLabelIsLost(a: byte, b: byte)
    ensures DotJoin([[a, 0x2E, b]]) == DotJoin([[a], [b]]) == [a, 0x2E, b]
  {
    DotsBetween([a], [[b]]);
    assert [[a]] + [[b]] == [[a], [b]];
  }
}
