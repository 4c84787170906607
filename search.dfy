/**
 * First-match search and counting over sequences: the shape shared by the
 * store's `select ... where ... .get()` and `.count()` queries and by the
 * `for ... return` loops of the dispatcher.
 */
module Search {
  import opened Wrappers

  /** Index of the first element that satisfies `p`, if any. */
  function IndexWhere<T>(s: seq<T>, p: T -> bool): (r: Option<nat>)
    ensures r.Some? ==> r.value < |s| && p(s[r.value])
    ensures r.Some? ==> forall j :: 0 <= j < r.value ==> !p(s[j])
    ensures r.None? <==> forall j :: 0 <= j < |s| ==> !p(s[j])
  {
    if |s| == 0 then None
    else if p(s[0]) then Some(0)
    else
      match IndexWhere(s[1..], p)
      case None => None
      case Some(i) => Some(i + 1)
  }

  /** Index of the last element that satisfies `p`, if any. */
  function LastWhere<T>(s: seq<T>, p: T -> bool): (r: Option<nat>)
    ensures r.Some? ==> r.value < |s| && p(s[r.value])
    ensures r.Some? ==> forall j :: r.value < j < |s| ==> !p(s[j])
    ensures r.None? <==> forall j :: 0 <= j < |s| ==> !p(s[j])
  {
    if |s| == 0 then None
    else if p(s[|s| - 1]) then Some(|s| - 1)
    else LastWhere(s[..|s| - 1], p)
  }

  /** Appending an element that does not match leaves the first match where it was. */
  lemma IndexAppend<T>(s: seq<T>, x: T, p: T -> bool)
    requires !p(x)
    ensures IndexWhere(s + [x], p) == IndexWhere(s, p)
  {
    var t := s + [x];
    assert forall j :: 0 <= j < |s| ==> t[j] == s[j];
  }

  /** Two equally long sequences whose elements agree on `p` have the same first match. */
  lemma {:induction false} IndexMatch<T>(s: seq<T>, t: seq<T>, p: T -> bool)
    requires |s| == |t|
    requires forall j :: 0 <= j < |s| ==> p(s[j]) == p(t[j])
    ensures IndexWhere(s, p) == IndexWhere(t, p)
  {
    if |s| > 0 {
      assert forall j :: 0 <= j < |s| - 1 ==> s[1..][j] == s[j + 1] && t[1..][j] == t[j + 1];
      IndexMatch(s[1..], t[1..], p);
    }
  }

  /** Number of elements that satisfy `p`. */
  function CountWhere<T>(s: seq<T>, p: T -> bool): (n: nat)
    ensures n <= |s|
    ensures n == 0 <==> forall j :: 0 <= j < |s| ==> !p(s[j])
  {
    if |s| == 0 then 0
    else CountWhere(s[..|s| - 1], p) + (if p(s[|s| - 1]) then 1 else 0)
  }

  lemma CountAppend<T>(s: seq<T>, x: T, p: T -> bool)
    ensures CountWhere(s + [x], p) == CountWhere(s, p) + (if p(x) then 1 else 0)
  {
    assert (s + [x])[..|s|] == s;
  }

  /** Counting distributes over a split of the sequence. */
  lemma {:induction false} CountSplit<T>(s: seq<T>, k: nat, p: T -> bool)
    requires k <= |s|
    ensures CountWhere(s, p) == CountWhere(s[..k], p) + CountWhere(s[k..], p)
    decreases |s|
  {
    if k == |s| {
      assert s[..k] == s;
      assert s[k..] == [];
    } else {
      var init := s[..|s| - 1];
      CountSplit(init, k, p);
      assert init[..k] == s[..k];
      assert s[k..] == init[k..] + [s[|s| - 1]];
      CountAppend(init[k..], s[|s| - 1], p);
    }
  }

  /** Two predicates that agree on every element count the same. */
  lemma {:induction false} CountSame<T>(s: seq<T>, p: T -> bool, q: T -> bool)
    requires forall j :: 0 <= j < |s| ==> p(s[j]) == q(s[j])
    ensures CountWhere(s, p) == CountWhere(s, q)
  {
    if |s| > 0 {
      CountSame(s[..|s| - 1], p, q);
    }
  }

  /** Replacing one element changes the count by at most that element's contribution. */
  lemma {:induction false} CountUpdate<T>(s: seq<T>, i: nat, x: T, p: T -> bool)
    requires i < |s|
    ensures CountWhere(s[i := x], p)
         == CountWhere(s, p) - (if p(s[i]) then 1 else 0) + (if p(x) then 1 else 0)
  {
    var t := s[i := x];
    CountSplit(s, i, p);
    CountSplit(t, i, p);
    CountSplit(s[i..], 1, p);
    CountSplit(t[i..], 1, p);
    assert s[..i] == t[..i];
    assert s[i..][1..] == t[i..][1..];
    assert s[i..][..1] == [s[i]];
    assert t[i..][..1] == [x];
    CountAppend([], s[i], p);
    CountAppend([], x, p);
  }

  /** Two equally long sequences whose elements agree on `p` count the same. */
  lemma {:induction false} CountMatch<T>(s: seq<T>, t: seq<T>, p: T -> bool)
    requires |s| == |t|
    requires forall j :: 0 <= j < |s| ==> p(s[j]) == p(t[j])
    ensures CountWhere(s, p) == CountWhere(t, p)
  {
    if |s| > 0 {
      CountMatch(s[..|s| - 1], t[..|t| - 1], p);
    }
  }
}
