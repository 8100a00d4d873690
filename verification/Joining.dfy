/** Texts written one behind the other with a separator between them, and where each part then stands. */
module Joining {
  function Join(parts: seq<string>, separator: string): string {
    if parts == [] then []
    else if |parts| == 1 then parts[0]
    else parts[0] + separator + Join(parts[1..], separator)
  }

  /** Where part `i` starts when each part is followed by a separator. */
  function Offset(parts: seq<string>, separator: string, i: nat): nat
    requires i <= |parts|
  {
    if i == 0 then 0 else Offset(parts, separator, i - 1) + |parts[i - 1]| + |separator|
  }

  /** Every part stands at its offset, the separator between it and the next one, and nothing else anywhere. */
  ghost predicate LaidOut(whole: string, parts: seq<string>, separator: string) {
    && (parts == [] ==> whole == [])
    && (parts != [] ==> |whole| + |separator| == Offset(parts, separator, |parts|))
    && forall i | 0 <= i < |parts| :: PartAt(whole, parts, separator, i)
  }

  predicate PartAt(whole: string, parts: seq<string>, separator: string, i: nat)
    requires i < |parts|
  {
    var (from, to) := (Offset(parts, separator, i), Offset(parts, separator, i) + |parts[i]|);
    && to <= |whole| && whole[from..to] == parts[i]
    && (i + 1 < |parts| ==> to + |separator| <= |whole| && whole[to..to + |separator|] == separator)
  }

  lemma {:induction false} OffsetOfRest(parts: seq<string>, separator: string, i: nat)
    requires i < |parts|
    ensures Offset(parts, separator, i + 1) == |parts[0]| + |separator| + Offset(parts[1..], separator, i)
  {
    if i > 0 {
      OffsetOfRest(parts, separator, i - 1);
    }
  }

  lemma PartBehind(tail: string, parts: seq<string>, separator: string, i: nat)
    requires 0 < i < |parts| && PartAt(tail, parts[1..], separator, i - 1)
    ensures PartAt(parts[0] + separator + tail, parts, separator, i)
  {
    var rest := parts[1..];
    OffsetOfRest(parts, separator, i - 1);
    var from := Offset(rest, separator, i - 1);
    LaterPart(parts[0] + separator, tail, from, from + |parts[i]|, separator);
  }

  lemma FirstPart(tail: string, parts: seq<string>, separator: string)
    requires |parts| > 1
    ensures PartAt(parts[0] + separator + tail, parts, separator, 0)
  {
    var whole := parts[0] + separator + tail;
    assert whole[..|parts[0]|] == parts[0] && whole[|parts[0]|..|parts[0]| + |separator|] == separator;
  }

  lemma {:induction false} JoinIsLaidOut(parts: seq<string>, separator: string)
    ensures LaidOut(Join(parts, separator), parts, separator)
  {
    if |parts| == 1 {
      assert Offset(parts, separator, 1) == Offset(parts, separator, 0) + |parts[0]| + |separator|;
      assert PartAt(Join(parts, separator), parts, separator, 0);
    } else if |parts| > 1 {
      var rest := parts[1..];
      JoinIsLaidOut(rest, separator);
      OffsetOfRest(parts, separator, |rest|);
      forall i | 0 <= i < |parts|
        ensures PartAt(parts[0] + separator + Join(rest, separator), parts, separator, i)
      {
        if i > 0 {
          PartBehind(Join(rest, separator), parts, separator, i);
        } else {
          FirstPart(Join(rest, separator), parts, separator);
        }
      }
    }
  }

  lemma LaterPart(head: string, tail: string, from: nat, to: nat, separator: string)
    requires from <= to <= |tail|
    ensures (head + tail)[|head| + from..|head| + to] == tail[from..to]
    ensures to + |separator| <= |tail| ==>
      (head + tail)[|head| + to..|head| + to + |separator|] == tail[to..to + |separator|]
  {
  }

  /** Nothing else is laid out so. */
  lemma {:induction false} LaidOutIsJoin(whole: string, parts: seq<string>, separator: string)
    requires LaidOut(whole, parts, separator)
    ensures whole == Join(parts, separator)
  {
    JoinIsLaidOut(parts, separator);
    SameLayout(whole, Join(parts, separator), parts, separator, |parts|);
    if parts != [] {
      var last := |parts| - 1;
      assert PartAt(whole, parts, separator, last) && PartAt(Join(parts, separator), parts, separator, last);
      assert whole == whole[..|whole|];
    }
  }

  lemma {:induction false} SameLayout(a: string, b: string, parts: seq<string>, separator: string, n: nat)
    requires LaidOut(a, parts, separator) && LaidOut(b, parts, separator) && n <= |parts|
    ensures var end := if n == 0 then 0 else if n == |parts| then |a| else Offset(parts, separator, n);
      end <= |a| && end <= |b| && a[..end] == b[..end]
  {
    if n > 0 {
      SameLayout(a, b, parts, separator, n - 1);
      assert PartAt(a, parts, separator, n - 1) && PartAt(b, parts, separator, n - 1);
    }
  }
}
