/** `download_tile`: a bounded retry loop around one download. Each attempt's
    outcome is an input (true when the download succeeds); the delay between
    attempts is only counted. */
module Retry {
  import opened Results

  /** The default number of attempts. */
  const DefaultMaxRetries := 5

  /** Some attempt among the first `limit` succeeds. */
  ghost predicate SomeSuccess(outcomes: seq<bool>, limit: int)
    requires limit <= |outcomes|
  {
    exists k :: 0 <= k < limit && outcomes[k]
  }

  /** Attempts are made in order until one succeeds or `maxRetries` have
      failed; after a failure the loop pauses only when another attempt
      follows. */
  method DownloadTile(outcomes: seq<bool>, maxRetries: int) returns (attempts: nat, sleeps: nat, downloaded: bool)
    requires maxRetries <= |outcomes|
    ensures attempts <= Max0(maxRetries)
    ensures maxRetries <= 0 ==> attempts == 0 && !downloaded
    ensures downloaded <==> SomeSuccess(outcomes, maxRetries)
    ensures downloaded ==> attempts >= 1 && outcomes[attempts - 1]
    ensures forall k :: 0 <= k < attempts - 1 ==> !outcomes[k]
    ensures !downloaded ==> attempts == Max0(maxRetries)
    ensures sleeps == Max0(attempts - 1)
  {
    var retries := 0;
    sleeps := 0;
    while retries < maxRetries
      invariant 0 <= retries <= Max0(maxRetries)
      invariant forall k :: 0 <= k < retries ==> !outcomes[k]
      invariant sleeps == if retries < maxRetries then retries else Max0(retries - 1)
    {
      if outcomes[retries] {
        attempts, downloaded := retries + 1, true;
        return;
      }
      retries := retries + 1;
      if retries < maxRetries {
        sleeps := sleeps + 1;
      }
    }
    attempts, downloaded := retries, false;
  }

  /** With the default limit, four failures followed by a success take five
      attempts and four pauses. */
  method FourFailuresThenSuccess() returns (attempts: nat, sleeps: nat, downloaded: bool)
    ensures downloaded && attempts == 5 && sleeps == 4
  {
    var outcomes := [false, false, false, false, true];
    attempts, sleeps, downloaded := DownloadTile(outcomes, DefaultMaxRetries);
    assert outcomes[4];
  }

  /** With the default limit, five failures take five attempts and four
      pauses, and the download gives up without an error. */
  method AllFail() returns (attempts: nat, sleeps: nat, downloaded: bool)
    ensures !downloaded && attempts == 5 && sleeps == 4
  {
    var outcomes := [false, false, false, false, false];
    attempts, sleeps, downloaded := DownloadTile(outcomes, DefaultMaxRetries);
  }
}
