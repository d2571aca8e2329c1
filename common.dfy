/** Shared result and error types for both handlers.
    The source's `Error` (src/error.rs) is a string-carrying enum; the model keeps
    the kind of each failure, not its message. */
module Common {

  datatype Option<+T> = None | Some(value: T) {
    function GetOr(default: T): T {
      match this
      case Some(v) => v
      case None => default
    }
  }

  /** The phase an orchestration-level error is wrapped with (the `map_err`
      calls in the two `handle` functions). */
  datatype Phase = ParsingAliases | CreatingAliases | ListingRules | DeletingRules

  datatype Error =
    | Io                          // the export file could not be opened
    | NoHeaders                   // the CSV reader could not produce a header row
    | MissingHeader(name: string) // a required column is absent
    | MalformedCsv                // some record failed to parse
    | UnsupportedFormat           // Bitwarden JSON export
    | Http(status: Option<nat>)   // a reqwest error, with the status it carries, if any
    | ListingFailed               // the listing endpoint answered `success: false`
    | Context(phase: Phase, cause: Error)

  datatype Result<+T> = Success(value: T) | Failure(error: Error) {
    predicate IsFailure() {
      Failure?
    }

    function PropagateFailure<U>(): Result<U>
      requires Failure?
    {
      Failure(error)
    }

    function Extract(): T
      requires Success?
    {
      value
    }
  }

  /** No element occurs twice. */
  predicate Distinct<T(==)>(s: seq<T>) {
    forall i, j :: 0 <= i < j < |s| ==> s[i] != s[j]
  }

  /** The bookkeeping of a fan-out over the set `all`: `attempted` lists the
      elements already handled, each once, and `remaining` holds the rest. */
  predicate FanOut<T(==)>(all: set<T>, remaining: set<T>, attempted: seq<T>) {
    && remaining <= all
    && (forall x :: x in all ==> (x in remaining <==> x !in attempted))
    && Distinct(attempted)
    && (forall i :: 0 <= i < |attempted| ==> attempted[i] in all)
  }

  /** Handling one more remaining element keeps the bookkeeping. */
  lemma FanOutStep<T>(all: set<T>, remaining: set<T>, attempted: seq<T>, x: T)
    requires FanOut(all, remaining, attempted) && x in remaining
    ensures FanOut(all, remaining - {x}, attempted + [x])
  {
    var next := attempted + [x];
    forall y | y in all
      ensures y in remaining - {x} <==> y !in next
    {
      assert y in next <==> y in attempted || y == x;
    }
  }

  /** Some element of a non-empty sequence satisfies `p` iff some element
      of its prefix `init` (all but the last) does, or the last does. */
  lemma ExistsSnoc<T>(s: seq<T>, init: seq<T>, p: T -> bool)
    requires s != [] && init == s[..|s| - 1]
    ensures (exists j :: 0 <= j < |s| && p(s[j]))
        <==> (exists j :: 0 <= j < |init| && p(init[j])) || p(s[|s| - 1])
  {
    if exists j :: 0 <= j < |s| && p(s[j]) {
      var j :| 0 <= j < |s| && p(s[j]);
      if j < |init| {
        assert init[j] == s[j];
      }
    }
    if exists j :: 0 <= j < |init| && p(init[j]) {
      var j :| 0 <= j < |init| && p(init[j]);
      assert s[j] == init[j];
    }
  }
}
