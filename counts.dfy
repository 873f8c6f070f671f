/** Words, word counts and size limits shared by the vocabulary and its frozen indices. */
module Counts {

  type Word = string

  /** A count as the source stores it: a Python number, finite for ordinary words and
      float("inf") for specials and unk. Finite counts may go negative (uncounting a
      word that is absent stores -1). */
  datatype Count = Fin(n: int) | Inf

  /** `a >= b` on Python numbers, with inf >= everything and nothing finite >= inf. */
  predicate Ge(a: Count, b: Count)
  {
    match (a, b)
    case (Inf, _) => true
    case (Fin(_), Inf) => false
    case (Fin(x), Fin(y)) => x >= y
  }

  /** `a > b` on Python numbers; inf > inf is false. */
  predicate Gt(a: Count, b: Count)
  {
    Ge(a, b) && a != b
  }

  /** `c >= m` for an integer threshold, as `c >= min_freq` compares it. */
  predicate AtLeast(c: Count, m: int)
  {
    c.Inf? || c.n >= m
  }

  /** `c + 1`; inf + 1 is inf. */
  function Inc(c: Count): Count
  {
    if c.Inf? then Inf else Fin(c.n + 1)
  }

  /** `c - 1`; inf - 1 is inf. */
  function Dec(c: Count): Count
  {
    if c.Inf? then Inf else Fin(c.n - 1)
  }

  /** A keyword argument that defaults to float("inf"), such as `n_to_keep`. */
  datatype Limit = NoCap | Cap(n: nat)

  /** `limit + k`, which stays infinite for NoCap. */
  function Plus(limit: Limit, k: nat): Limit
  {
    if limit.NoCap? then NoCap else Cap(limit.n + k)
  }

  /** `limit < n`; inf < n is false. */
  predicate Below(limit: Limit, n: nat)
  {
    limit.Cap? && limit.n < n
  }

}
