/** What several models use and none of them owns. */
module Common {

  datatype Option<+T> = None | Some(value: T)

  /** A truth value as a count. */
  function B(b: bool): nat { if b then 1 else 0 }

  function Power(base: nat, k: nat): (p: nat)
    ensures base > 0 ==> p > 0
  {
    if k == 0 then 1 else base * Power(base, k - 1)
  }

  lemma Reassociate<T>(a: seq<T>, b: seq<T>, c: seq<T>)
    ensures a + (b + c) == a + b + c
  {
  }

  lemma Regroup<T>(a: seq<T>, b: seq<T>, c: seq<T>, d: seq<T>)
    ensures a + b + (c + d) == a + (b + c) + d == a + (b + c + d)
  {
  }
}
