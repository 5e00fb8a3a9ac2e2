/** What several parts of the model share. */
module Common {

  datatype Option<+T> = None | Some(value: T)

  const EOS: char := '\0'

  const NICKLEN: nat := 30
  const USERLEN: nat := 10
  const HOSTLEN: nat := 63

  /** At most the first n elements. */
  function Take<T>(s: seq<T>, n: nat): seq<T> {
    if |s| <= n then s else s[..n]
  }

  lemma Regroup<T>(a: seq<T>, b: seq<T>, c: seq<T>)
    ensures a + (b + c) == (a + b) + c
  {
  }
}
