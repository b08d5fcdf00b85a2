/**
 * The module-level `download(source_id)`: up to four attempts to read a page,
 * retrying after an HTTP error, a connection error or too many redirects.
 * Each attempt's outcome is supplied by `attempt`, standing for
 * `downloader.read`; parsing with BeautifulSoup is the identity here.
 */
module Fetch {
  /** What one call of `downloader.read` did. */
  datatype ReadOutcome =
    | Read(document: string)
    | HttpError
    | ConnectionError
    | TooManyRedirects
    | Unhandled

  /** The three exceptions the loop catches before trying again. */
  predicate Retryable(o: ReadOutcome) {
    o.HttpError? || o.ConnectionError? || o.TooManyRedirects?
  }

  /** How `download` ends: the parsed page, `False` after four failures, or an escaping exception. */
  datatype Fetched = Parsed(document: string) | NotFetched | Raised

  /** `while tries < 4`. */
  const MaxTries := 4

  /**
   * `download`: the loop stops at the first attempt that is not retryable, or
   * after four attempts. Returns how it ended and the number of attempts.
   */
  method Download(attempt: nat -> ReadOutcome) returns (r: Fetched, tries: nat)
    ensures 1 <= tries <= MaxTries
    ensures forall i :: 0 <= i < tries - 1 ==> Retryable(attempt(i))
    ensures r.Parsed? <==> attempt(tries - 1).Read?
    ensures r.Parsed? ==> r.document == attempt(tries - 1).document
    ensures r.NotFetched? <==> tries == MaxTries && Retryable(attempt(tries - 1))
    ensures r.Raised? <==> attempt(tries - 1).Unhandled?
    ensures r == Outcome(attempt, 0)
  {
    tries := 0;
    while tries < MaxTries
      invariant tries <= MaxTries
      invariant forall i :: 0 <= i < tries ==> Retryable(attempt(i))
      invariant Outcome(attempt, 0) == Outcome(attempt, tries)
    {
      var o := attempt(tries);
      tries := tries + 1;
      match o
      case Read(document) =>
        return Parsed(document), tries;
      case Unhandled =>
        return Raised, tries;
      case _ =>
    }
    r := NotFetched;
  }

  /**
   * The same loop told recursively: how `download` ends when attempt `i`
   * is the next to run.
   */
  function Outcome(attempt: nat -> ReadOutcome, i: nat): Fetched
    requires i <= MaxTries
    decreases MaxTries - i
  {
    if i == MaxTries then NotFetched
    else match attempt(i)
      case Read(document) => Parsed(document)
      case Unhandled => Raised
      case _ => Outcome(attempt, i + 1)
  }

  /** A first successful read is returned at once. */
  lemma FirstReadWins(attempt: nat -> ReadOutcome)
    requires attempt(0).Read?
    ensures Outcome(attempt, 0) == Parsed(attempt(0).document)
  {
  }

  /** Four retryable failures in a row make `download` give up. */
  lemma FourFailuresGiveUp(attempt: nat -> ReadOutcome)
    requires forall i :: 0 <= i < MaxTries ==> Retryable(attempt(i))
    ensures Outcome(attempt, 0) == NotFetched
  {
    assert Retryable(attempt(0)) && Retryable(attempt(1)) && Retryable(attempt(2)) && Retryable(attempt(3));
  }
}
