/**
  Joining the selected sentences into one string, separated by single spaces.
 */
module Joining {

  /** ' '.join(parts) */
  function Join(parts: seq<string>): (r: string)
    ensures parts == [] ==> r == ""
    ensures |parts| > 0 ==> |r| == TotalLength(parts) + |parts| - 1
  {
    if parts == [] then ""
    else if |parts| == 1 then parts[0]
    else parts[0] + " " + Join(parts[1..])
  }

  /** The summed lengths of the parts. */
  function TotalLength(parts: seq<string>): nat {
    if parts == [] then 0 else |parts[0]| + TotalLength(parts[1..])
  }

  /** Where part `i` starts in the joined string: every earlier part and its separator come first. */
  function Offset(parts: seq<string>, i: nat): nat
    requires i <= |parts|
  {
    if i == 0 then 0 else |parts[0]| + 1 + Offset(parts[1..], i - 1)
  }

  lemma SliceAfter(head: string, rest: string, lo: nat, hi: nat)
    requires lo <= hi <= |rest|
    ensures (head + rest)[|head| + lo..|head| + hi] == rest[lo..hi]
  {
  }

  /** The first part opens the joined string and, when more follow, a space comes after it. */
  lemma JoinFirst(parts: seq<string>)
    requires |parts| > 0
    ensures |parts[0]| <= |Join(parts)|
    ensures Join(parts)[..|parts[0]|] == parts[0]
    ensures |parts| > 1 ==> |parts[0]| < |Join(parts)| && Join(parts)[|parts[0]|] == ' '
  {
    if |parts| > 1 {
      assert Join(parts) == parts[0] + " " + Join(parts[1..]);
    }
  }

  /**
    Part `i` sits at its offset in the joined string, and a single space
    follows every part but the last.
   */
  lemma {:induction false} JoinLayout(parts: seq<string>, i: nat)
    requires i < |parts|
    ensures Offset(parts, i) + |parts[i]| <= |Join(parts)|
    ensures i + 1 < |parts| ==> Offset(parts, i) + |parts[i]| < |Join(parts)|
    ensures Join(parts)[Offset(parts, i)..Offset(parts, i) + |parts[i]|] == parts[i]
    ensures i + 1 < |parts| ==> Join(parts)[Offset(parts, i) + |parts[i]|] == ' '
  {
    if |parts| > 1 {
      var head := parts[0] + " ";
      var rest := Join(parts[1..]);
      assert Join(parts) == head + rest;
      if i == 0 {
        JoinFirst(parts);
      } else {
        JoinLayout(parts[1..], i - 1);
        var o := Offset(parts[1..], i - 1);
        assert Offset(parts, i) == |head| + o;
        SliceAfter(head, rest, o, o + |parts[i]|);
        if i + 1 < |parts| {
          assert (head + rest)[|head| + o + |parts[i]|] == rest[o + |parts[i]|];
        }
      }
    }
  }
}
