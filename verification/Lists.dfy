// Taking one entry out of a linked list.
module Lists {
  // The list without the first entry that is x.
  function Without(list: seq<nat>, x: nat): seq<nat> {
    if list == [] then []
    else if list[0] == x then list[1..]
    else [list[0]] + Without(list[1..], x)
  }

  lemma {:induction false} WithoutIsSublist(list: seq<nat>, x: nat)
    ensures forall y :: y in Without(list, x) ==> y in list
    ensures x in list ==> |Without(list, x)| == |list| - 1
  {
    if list != [] && list[0] != x {
      WithoutIsSublist(list[1..], x);
    }
  }

  lemma {:induction false} WithoutDistinct(list: seq<nat>, x: nat)
    requires forall i, j :: 0 <= i < j < |list| ==> list[i] != list[j]
    ensures var r := Without(list, x);
      && (forall i, j :: 0 <= i < j < |r| ==> r[i] != r[j])
      && (forall y :: y in r <==> y in list && y != x)
      && (list != [] && list[0] != x ==> r != [] && r[0] == list[0])
  {
    if list != [] {
      WithoutDistinct(list[1..], x);
      assert list[0] !in list[1..];
      assert forall y :: y in list <==> y == list[0] || y in list[1..];
    }
  }

  lemma {:induction false} WithoutFirst(list: seq<nat>, x: nat, k: nat)
    requires k < |list| && list[k] == x && x !in list[..k]
    ensures Without(list, x) == list[..k] + list[k + 1..]
  {
    if k > 0 {
      assert list[..k][0] == list[0];
      assert list[1..][..k - 1] == list[..k][1..];
      WithoutFirst(list[1..], x, k - 1);
    }
  }
}
