/**
 * The ordered handler lists of the listener registry: `Array.indexOf` and
 * `removeElement`, which splices out the first occurrence of a handler.
 * Handlers are compared by equality, as `indexOf` compares them with `===`.
 */
module Listeners {

  /** `array.indexOf(element)`: the first position holding the element, or -1. */
  function IndexOf<T(==)>(s: seq<T>, e: T): (i: int)
    ensures i == -1 <==> e !in s
    ensures -1 <= i < |s|
    ensures 0 <= i ==> s[i] == e && e !in s[..i]
  {
    if |s| == 0 then -1
    else if s[0] == e then 0
    else
      var j := IndexOf(s[1..], e);
      assert s[1..][..if j < 0 then 0 else j] == s[1..if j < 0 then 1 else j + 1];
      if j < 0 then -1 else j + 1
  }

  /**
   * `removeElement(array, element)`: when the element occurs, the list loses
   * exactly its first occurrence and the other entries keep their order;
   * when it does not, the list is unchanged.
   */
  function RemoveElement<T(==)>(s: seq<T>, e: T): (r: seq<T>)
    ensures e !in s ==> r == s
    ensures e in s ==> |r| == |s| - 1 && multiset(r) == multiset(s) - multiset{e}
  {
    var index := IndexOf(s, e);
    if index < 0 then s
    else
      assert s == s[..index] + [s[index]] + s[index + 1..];
      s[..index] + s[index + 1..]
  }

  /**
   * Where the entries of `RemoveElement(s, e)` come from: the entries before
   * the first occurrence of `e` stay in place (none of them is `e`), and the
   * entries after it shift down by one.
   */
  lemma RemoveElementPositions<T>(s: seq<T>, e: T, k: int)
    requires e in s && 0 <= k < |s| - 1
    ensures var i := IndexOf(s, e);
      && (k < i ==> RemoveElement(s, e)[k] == s[k] && s[k] != e)
      && (i <= k ==> RemoveElement(s, e)[k] == s[k + 1])
  {
    var i := IndexOf(s, e);
    if k < i {
      assert s[..i][k] == s[k];
    }
  }

  /** Removing a handler just appended, which was not registered before, restores the list. */
  lemma RemoveElementUndoesAppend<T>(s: seq<T>, e: T)
    requires e !in s
    ensures RemoveElement(s + [e], e) == s
  {
    var t := s + [e];
    var i := IndexOf(t, e);
    assert t[|s|] == e;
    assert t[..i] == s;
  }
}
