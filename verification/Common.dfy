/** What several modules need. */
module Common {

  datatype Option<T> = None | Some(value: T)

  function UpTo(n: nat): (r: set<nat>)
    ensures |r| == n && forall i: nat :: i in r <==> i < n
  {
    if n == 0 then {} else UpTo(n - 1) + {n - 1}
  }

  lemma Regrouped<T>(s: seq<T>, more: seq<T>)
    requires more != []
    ensures s + more == s + more[..|more|-1] + [more[|more|-1]]
  {
  }
}
