/** Sequences standing for the kernel's linked lists. */
module Lists {

  datatype Option<+T> = None | Some(value: T)

  ghost predicate Distinct<T>(s: seq<T>) {
    forall i, j :: 0 <= i < j < |s| ==> s[i] != s[j]
  }

  /** The position at which x is linked. */
  function Pos<T(==)>(s: seq<T>, x: T): (i: nat)
    requires x in s
    ensures i < |s| && s[i] == x
  {
    if s[0] == x then 0 else 1 + Pos(s[1..], x)
  }

  /** Unlink x (list_del). */
  function Delete<T(==)>(s: seq<T>, x: T): (r: seq<T>)
    requires x in s
    ensures |r| == |s| - 1
  {
    var i := Pos(s, x);
    s[..i] + s[i + 1..]
  }

  lemma DeleteMembers<T>(s: seq<T>, x: T)
    requires Distinct(s) && x in s
    ensures Distinct(Delete(s, x))
    ensures forall y :: y in Delete(s, x) <==> y in s && y != x
  {
    var i, r := Pos(s, x), Delete(s, x);
    forall y | y in s && y != x
      ensures y in r
    {
      var k :| 0 <= k < |s| && s[k] == y;
      assert y == if k < i then r[k] else r[k - 1];
    }
  }
}
