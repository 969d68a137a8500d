/** The optimality criterion `optim` that `optimize` and `doe`
    (src/optimal_splitk/doe.py) consult, as an abstract oracle: its numerics
    (D-optimality and the like) are not part of this model. */
module Criterion {
  import opened Matrices
  import opened Geometry
  import opened ModelMatrix

  /** What `optim.update` does with one candidate: accept it (with a new state),
      reject it (with a new state), or raise, which the exchange treats as a
      rejection that keeps the old state. */
  datatype Verdict<S> = Accept(next: S) | Reject(next: S) | Failed

  /** A computation that may raise `numpy.linalg.LinAlgError`. */
  datatype Fallible<T> = Done(value: T) | Singular

  /** The five operations of a criterion over a prestate `P` and a per-start
      state `S`. `resync` stands for the recomputation of `state.Minv` from the
      full model matrix after a sweep that changed the design. */
  datatype Criterion<!P, !S> = Criterion(
    preinit: (seq<nat>, Model, seq<Factor>, seq<real>) -> P,
    init: (P, Matrix, Matrix) -> Fallible<S>,
    update: (S, Matrix, Matrix, nat, nat) -> Verdict<S>,
    resync: (S, Matrix) -> Fallible<S>,
    metric: (S, Matrix, Matrix) -> Fallible<real>)
}
