/** A roster is the ordered list of student emails signed up for one
    activity. This module gives the Python list operations the handlers use
    on a roster (membership with `in`, `append`, and `remove`, which deletes
    the first occurrence) and the facts about them that keep a roster free
    of duplicates. */
module Roster {

  /** No email appears twice in the roster. */
  predicate NoDuplicates(s: seq<string>) {
    forall i, j :: 0 <= i < j < |s| ==> s[i] != s[j]
  }

  /** The position of the first occurrence of `x`, as `list.index` finds it. */
  function IndexOf(s: seq<string>, x: string): (i: nat)
    requires x in s
    ensures i < |s| && s[i] == x
    ensures x !in s[..i]
  {
    if s[0] == x then 0
    else
      var j := IndexOf(s[1..], x);
      assert s[..j + 1] == [s[0]] + s[1..][..j];
      j + 1
  }

  /** `list.remove(x)`: scans from the front and deletes the first element
      equal to `x`. Everything before it and everything after it keeps its
      order. (Python raises ValueError when `x` is absent; every caller here
      checks membership first.) */
  function RemoveFirst(s: seq<string>, x: string): (r: seq<string>)
    requires x in s
    ensures |r| == |s| - 1
    ensures r == s[..IndexOf(s, x)] + s[IndexOf(s, x) + 1..]
  {
    if s[0] == x then s[1..]
    else
      var t := s[1..];
      assert s[..IndexOf(s, x)] == [s[0]] + t[..IndexOf(t, x)];
      assert s[IndexOf(s, x) + 1..] == t[IndexOf(t, x) + 1..];
      [s[0]] + RemoveFirst(t, x)
  }

  /** Appending keeps the roster duplicate-free exactly when the new email is
      not already in it: the check-then-append of a signup. */
  lemma {:induction false} AppendNoDuplicates(s: seq<string>, x: string)
    ensures NoDuplicates(s + [x]) <==> NoDuplicates(s) && x !in s
  {
    var t := s + [x];
    if NoDuplicates(t) {
      forall i, j | 0 <= i < j < |s| ensures s[i] != s[j] {
        assert t[i] == s[i] && t[j] == s[j];
      }
      forall k | 0 <= k < |s| ensures s[k] != x {
        assert t[k] == s[k] && t[|s|] == x;
      }
    }
    if NoDuplicates(s) && x !in s {
      forall i, j | 0 <= i < j < |t| ensures t[i] != t[j] {
        if j == |s| {
          assert t[i] == s[i];
        } else {
          assert t[i] == s[i] && t[j] == s[j];
        }
      }
    }
  }

  /** Removal takes exactly one copy of `x` out and nothing else. */
  lemma {:induction false} RemoveFirstMultiset(s: seq<string>, x: string)
    requires x in s
    ensures multiset(RemoveFirst(s, x)) == multiset(s) - multiset{x}
  {
    var i := IndexOf(s, x);
    assert s == s[..i] + [x] + s[i + 1..];
    assert multiset(s) == multiset(s[..i]) + multiset{x} + multiset(s[i + 1..]);
  }

  /** Every other email is in the roster after removal iff it was before. */
  lemma {:induction false} RemoveFirstKeepsOthers(s: seq<string>, x: string, y: string)
    requires x in s && y != x
    ensures y in RemoveFirst(s, x) <==> y in s
  {
    RemoveFirstMultiset(s, x);
    assert y in multiset(RemoveFirst(s, x)) <==> y in multiset(s);
  }

  /** On a duplicate-free roster removal keeps it duplicate-free and leaves
      no copy of `x` behind. */
  lemma {:induction false} RemoveFirstNoDuplicates(s: seq<string>, x: string)
    requires NoDuplicates(s) && x in s
    ensures NoDuplicates(RemoveFirst(s, x))
    ensures x !in RemoveFirst(s, x)
  {
    var i := IndexOf(s, x);
    var r := RemoveFirst(s, x);
    // r[k] is s[k] before the gap and s[k + 1] from it on.
    assert forall k :: 0 <= k < |r| ==> r[k] == s[if k < i then k else k + 1];
    forall a, b | 0 <= a < b < |r| ensures r[a] != r[b] {
      var a', b' := if a < i then a else a + 1, if b < i then b else b + 1;
      assert r[a] == s[a'] && r[b] == s[b'] && a' < b';
    }
    forall k | 0 <= k < |r| ensures r[k] != x {
      var k' := if k < i then k else k + 1;
      assert r[k] == s[k'] && k' != i;
    }
  }

  /** Removing an email just appended to a roster that did not hold it gives
      the roster back: unregister undoes signup. */
  lemma {:induction false} RemoveFirstOfAppend(s: seq<string>, x: string)
    requires x !in s
    ensures RemoveFirst(s + [x], x) == s
  {
    var t := s + [x];
    var i := IndexOf(t, x);
    assert forall k :: 0 <= k < |s| ==> t[k] == s[k];
    assert i == |s|;
    assert t[..i] == s;
  }
}
