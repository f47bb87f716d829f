/** Optional values, the ways a run of the inducer stops early, and results that carry them. */
module Outcomes {

  datatype Option<T> = None | Some(value: T)

  /** Why a run stops without producing a rule set. */
  datatype Error =
    /** `float()` rejected the raw text of a case of a numeric attribute. */
    | NotAFloat(attribute: string, raw: string)
    /** The best-candidate search was given fewer than two candidates (it reads the
        first two entries of its sorted list). */
    | TooFewCandidates
    /** The model's bound on iterations of the induction loop ran out; the source's
        loop has no such bound and can run forever. */
    | OutOfFuel

  datatype Result<T> = Success(value: T) | Failure(error: Error)
}
