/** Vocabulary shared by all parts of the model. */
module Basics {
  datatype Option<+T> = None | Some(value: T)

  datatype Error = EAGAIN | EBADF | EDEADLK | EINVAL | EMSGSIZE | ENOMEM | ERESTARTSYS | ESRCH

  datatype Result<+T> = Ok(value: T) | Err(error: Error)

  type Byte = b: int | 0 <= b < 256

  /** No element occurs twice. */
  ghost predicate NoDup<T>(q: seq<T>) {
    forall i, j :: 0 <= i < j < |q| ==> q[i] != q[j]
  }

  function IndexOf(q: seq<nat>, x: nat): (i: nat)
    requires x in q
    ensures i < |q| && q[i] == x
    ensures forall j :: 0 <= j < i ==> q[j] != x
  {
    if q[0] == x then 0 else 1 + IndexOf(q[1..], x)
  }

  /** A queue with x unlinked: list_del. */
  function Without(q: seq<nat>, x: nat): seq<nat> {
    if x in q then var i := IndexOf(q, x); q[..i] + q[i + 1..] else q
  }

  lemma WithoutMembers(q: seq<nat>, x: nat)
    requires NoDup(q)
    ensures NoDup(Without(q, x))
    ensures forall y :: y in Without(q, x) <==> y in q && y != x
  {}

  /** Appending a newcomer keeps a queue free of duplicates. */
  lemma AppendMembers(q: seq<nat>, x: nat)
    requires NoDup(q) && x !in q
    ensures NoDup(q + [x])
    ensures forall y :: y in q + [x] <==> y in q || y == x
  {}
}
