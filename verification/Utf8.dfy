/** Byte strings in the form of a Rust `str`: every `char` of a `Text` stands for one byte,
    and `Valid` is the UTF-8 syntax of section 4 of RFC 3629. */
module Utf8 {
  type Text = string

  predicate InRange(b: char, lo: int, hi: int) {
    lo <= b as int <= hi
  }

  predicate IsContinuation(b: char) {
    InRange(b, 0x80, 0xBF)
  }

  /** The number of octets announced by the first octet of a character. */
  function CharLen(lead: char): (n: nat)
    ensures 1 <= n <= 4
  {
    if lead as int < 0x80 then 1 else if lead as int < 0xE0 then 2 else if lead as int < 0xF0 then 3 else 4
  }

  /** The text begins with one complete, well-formed character. */
  predicate StartsWithChar(s: Text) {
    && |s| > 0
    && |s| >= CharLen(s[0])
    && (forall k | 1 <= k < CharLen(s[0]) :: IsContinuation(s[k]))
    && (|| InRange(s[0], 0x00, 0x7F)
        || InRange(s[0], 0xC2, 0xDF)
        || (s[0] as int == 0xE0 && InRange(s[1], 0xA0, 0xBF))
        || InRange(s[0], 0xE1, 0xEC)
        || (s[0] as int == 0xED && InRange(s[1], 0x80, 0x9F))
        || InRange(s[0], 0xEE, 0xEF)
        || (s[0] as int == 0xF0 && InRange(s[1], 0x90, 0xBF))
        || InRange(s[0], 0xF1, 0xF3)
        || (s[0] as int == 0xF4 && InRange(s[1], 0x80, 0x8F)))
  }

  predicate Valid(s: Text) {
    s == [] || (StartsWithChar(s) && Valid(s[CharLen(s[0])..]))
  }

  /** Rust's `is_char_boundary`. */
  predicate Boundary(s: Text, i: int) {
    i == 0 || i == |s| || (0 < i < |s| && !IsContinuation(s[i]))
  }

  lemma {:induction false} SplitValid(s: Text, i: nat)
    requires Valid(s) && Boundary(s, i)
    ensures i <= |s| && Valid(s[..i]) && Valid(s[i..])
    decreases |s|
  {
    if i == 0 || i == |s| {
      assert s[..|s|] == s;
    } else {
      var n := CharLen(s[0]);
      assert n <= i;
      SplitValid(s[n..], i - n);
      assert s[i..] == s[n..][i - n..];
      assert s[..i][n..] == s[n..][..i - n];
    }
  }

  lemma SliceValid(s: Text, i: nat, j: nat)
    requires Valid(s) && Boundary(s, i) && Boundary(s, j) && i <= j <= |s|
    ensures Valid(s[i..j])
  {
    SplitValid(s, i);
    SliceBoundary(s, i, j);
    SplitValid(s[i..], j - i);
  }

  lemma SliceBoundary(s: Text, i: nat, j: nat)
    requires i <= j <= |s| && Boundary(s, j)
    ensures Boundary(s[i..], j - i) && s[i..][..j - i] == s[i..j]
  {
    if i < j < |s| {
      assert s[i..][j - i] == s[j];
    }
  }

  lemma {:induction false} AsciiValid(s: Text)
    requires forall k | 0 <= k < |s| :: s[k] as int < 0x80
    ensures Valid(s)
  {
    if s != [] {
      AsciiValid(s[1..]);
    }
  }

  lemma {:induction false} NextBoundary(s: Text, i: nat)
    requires Valid(s) && Boundary(s, i) && i < |s|
    ensures i + CharLen(s[i]) <= |s| && Boundary(s, i + CharLen(s[i]))
    ensures StartsWithChar(s[i..])
  {
    SplitValid(s, i);
    var rest := s[i..];
    var after := rest[CharLen(s[i])..];
    assert Valid(after);
    if after != [] {
      assert after[0] == s[i + CharLen(s[i])];
    }
  }

  lemma {:induction false} ConcatValid(a: Text, b: Text)
    requires Valid(a) && Valid(b)
    ensures Valid(a + b)
    decreases |a|
  {
    if a == [] {
      assert a + b == b;
    } else {
      var n := CharLen(a[0]);
      FirstCharKept(a, b);
      ConcatValid(a[n..], b);
    }
  }

  lemma FirstCharKept(a: Text, b: Text)
    requires StartsWithChar(a)
    ensures StartsWithChar(a + b) && (a + b)[0] == a[0]
    ensures (a + b)[CharLen(a[0])..] == a[CharLen(a[0])..] + b
  {
    var s := a + b;
    assert forall k | 0 <= k < CharLen(a[0]) :: s[k] == a[k];
  }

  /** The nearest boundary at or below `i`. */
  function FloorBoundary(s: Text, i: nat): (j: nat)
    ensures j <= i && j <= |s| && Boundary(s, j)
    ensures forall k :: j < k <= i && k <= |s| ==> !Boundary(s, k)
  {
    if i >= |s| then |s|
    else if Boundary(s, i) then i
    else FloorBoundary(s, i - 1)
  }

  /** The four-octet limit of section 3 of RFC 3629: rounding down to a boundary loses at most three octets. */
  lemma {:induction false} FloorLosesAtMostThree(s: Text, i: nat)
    requires Valid(s) && i <= |s|
    ensures i - 3 <= FloorBoundary(s, i)
  {
    var j := FloorBoundary(s, i);
    if j < |s| && j < i {
      NextBoundary(s, j);
    }
  }

  method FloorCharBoundary(s: Text, index: nat) returns (i: nat)
    ensures i == FloorBoundary(s, index)
  {
    i := index;
    if i >= |s| {
      return |s|;
    }
    while i > 0 && !Boundary(s, i)
      invariant i <= index
      invariant FloorBoundary(s, i) == FloorBoundary(s, index)
    {
      i := i - 1;
    }
  }
}
