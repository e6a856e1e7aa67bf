/**
 The abstract meaning of the list operations as edits of a sequence: insertion
 at a position, removal at a position, and the position of the first
 occurrence of a value. The list methods are specified through these.
 */
module Sequences {

  /** `s` with `x` inserted so that it ends up at position `i`. */
  function InsertAt<T>(s: seq<T>, i: nat, x: T): (r: seq<T>)
    requires i <= |s|
  {
    s[..i] + [x] + s[i..]
  }

  /** `s` with the element at position `i` taken out. */
  function RemoveAt<T>(s: seq<T>, i: nat): (r: seq<T>)
    requires i < |s|
  {
    s[..i] + s[i + 1..]
  }

  /**
   The position of the first `x` in `s`, or `|s|` when `s` holds no `x`.
   */
  function IndexOf<T(==)>(s: seq<T>, x: T): (r: nat)
    ensures r <= |s|
    ensures r < |s| ==> s[r] == x
    ensures r == |s| <==> x !in s
    ensures x !in s[..r]
  {
    if s == [] then 0
    else if s[0] == x then 0
    else
      assert s == [s[0]] + s[1..];
      1 + IndexOf(s[1..], x)
  }

  /** A position holding `x` with no `x` before it is the one `IndexOf` gives. */
  lemma IndexOfLeast<T>(s: seq<T>, x: T, r: nat)
    requires r < |s| && s[r] == x && x !in s[..r]
    ensures IndexOf(s, x) == r
  {
  }

  /** Each position of an inserted sequence, read back. */
  lemma InsertAtIndex<T>(s: seq<T>, i: nat, x: T, k: nat)
    requires i <= |s| && k <= |s|
    ensures |InsertAt(s, i, x)| == |s| + 1
    ensures InsertAt(s, i, x)[k] == if k < i then s[k] else if k == i then x else s[k - 1]
    ensures k == |s| ==> InsertAt(s, i, x)[k] == if i == |s| then x else s[k - 1]
  {
  }

  /** Each position of a sequence with one element removed, read back. */
  lemma RemoveAtIndex<T>(s: seq<T>, i: nat, k: nat)
    requires i < |s| && k < |s| - 1
    ensures |RemoveAt(s, i)| == |s| - 1
    ensures RemoveAt(s, i)[k] == if k < i then s[k] else s[k + 1]
  {
  }

  /** Inserting at the two ends is prepending and appending. */
  lemma InsertAtEnds<T>(s: seq<T>, x: T)
    ensures InsertAt(s, 0, x) == [x] + s
    ensures InsertAt(s, |s|, x) == s + [x]
  {
  }

  /** Removing at position 0 drops the first element. */
  lemma RemoveAtFront<T>(s: seq<T>)
    requires |s| > 0
    ensures RemoveAt(s, 0) == s[1..]
  {
  }

  /** Removing what was just inserted gives back the original sequence. */
  lemma RemoveInsert<T>(s: seq<T>, i: nat, x: T)
    requires i <= |s|
    ensures RemoveAt(InsertAt(s, i, x), i) == s
  {
  }

  /** Putting a removed element back at its position gives back the original. */
  lemma InsertRemove<T>(s: seq<T>, i: nat)
    requires i < |s|
    ensures InsertAt(RemoveAt(s, i), i, s[i]) == s
  {
  }

  /**
   A value inserted at `i` is found at `i`, provided it does not already
   occur before `i`.
   */
  lemma IndexOfInsert<T>(s: seq<T>, i: nat, x: T)
    requires i <= |s|
    requires x !in s[..i]
    ensures IndexOf(InsertAt(s, i, x), x) == i
  {
    var t := InsertAt(s, i, x);
    var r := IndexOf(t, x);
    assert t[..i] == s[..i];
    assert t[i] == x;
  }

  /**
   After appending `y`, a value already present keeps its first position, and a
   value first seen in `y` is found at the old length.
   */
  lemma {:induction false} IndexOfAppend<T>(s: seq<T>, x: T, y: T)
    ensures IndexOf(s + [y], x) == if x in s then IndexOf(s, x) else if x == y then |s| else |s| + 1
  {
    if s != [] {
      assert (s + [y])[1..] == s[1..] + [y];
      IndexOfAppend(s[1..], x, y);
      assert x in s <==> s[0] == x || x in s[1..] by {
        assert s == [s[0]] + s[1..];
      }
    }
  }
}
