/** The two bounded retry loops of the scraper, over scripted outcomes instead
    of a browser and a clock: `get_url`, which re-issues a navigation after a
    driver error, and the polling of the information panel in the main loop.
    The pauses between attempts carry no logic and are left out. */
module Retry {

  /** `RETRIES_ON_NETERROR`: navigation attempts per page. */
  const NavigationRetries: nat := 15
  /** `RETRIES_INFO`: polls for the information panel per page. */
  const InfoRetries: nat := 5

  /** What one call of `get_url` did: how many times it called `driver.get`,
      and whether the last call loaded the page. The Python function returns
      `None` either way; the caller cannot tell the two apart. */
  datatype Navigation = Navigation(attempts: nat, loaded: bool)

  /** `get_url(driver, surl, retries)`. `outcomes[k]` says whether the `k`-th
      call of `driver.get` returns (`true`) or raises a `WebDriverException`
      (`false`). */
  function GetUrl(outcomes: seq<bool>, retries: nat): (r: Navigation)
    requires retries <= |outcomes|
    ensures r.attempts <= retries
    ensures r.loaded <==> exists k :: 0 <= k < retries && outcomes[k]
    ensures r.loaded ==> 0 < r.attempts && outcomes[r.attempts - 1]
                         && forall k :: 0 <= k < r.attempts - 1 ==> !outcomes[k]
    ensures !r.loaded ==> r.attempts == retries
  {
    if retries == 0 then Navigation(0, false)
    else if outcomes[0] then Navigation(1, true)
    else
      var rest := GetUrl(outcomes[1..], retries - 1);
      assert forall k :: 1 <= k < retries ==> outcomes[k] == outcomes[1..][k - 1];
      Navigation(rest.attempts + 1, rest.loaded)
  }

  /** When every navigation fails, `get_url` still returns after making
      exactly `retries` attempts, and nothing signals the failure. */
  lemma GetUrlGivesUpSilently(outcomes: seq<bool>, retries: nat)
    requires retries <= |outcomes|
    requires forall k :: 0 <= k < retries ==> !outcomes[k]
    ensures GetUrl(outcomes, retries) == Navigation(retries, false)
  {
  }

  /** One call of `get_info_soup`: the tab label is not there yet (`None`),
      the panel is there and parsed, or the click or the wait raised. */
  datatype Poll<D> = NotShown | Shown(panel: D) | Raised

  /** The result of the polling loop. */
  datatype Panel<D> = Found(panel: D) | Absent | Crashed

  /** The polling loop `for t in range(RETRIES_INFO)` of the main block: the
      first poll that does not answer `NotShown` decides, among at most
      `retries` polls; if all of them answer `NotShown`, the panel is absent. */
  function PollInfo<D>(polls: seq<Poll<D>>, retries: nat): (r: Panel<D>)
    requires retries <= |polls|
    ensures r.Absent? <==> forall k :: 0 <= k < retries ==> polls[k].NotShown?
    ensures r.Found? ==> exists k :: 0 <= k < retries && polls[k] == Shown(r.panel)
                                     && forall j :: 0 <= j < k ==> polls[j].NotShown?
    ensures r.Crashed? ==> exists k :: 0 <= k < retries && polls[k].Raised?
                                       && forall j :: 0 <= j < k ==> polls[j].NotShown?
  {
    if retries == 0 then Absent
    else match polls[0]
      case Shown(p) => Found(p)
      case Raised => Crashed
      case NotShown =>
        var rest := PollInfo(polls[1..], retries - 1);
        assert forall k :: 1 <= k < retries ==> polls[k] == polls[1..][k - 1];
        rest
  }
}
