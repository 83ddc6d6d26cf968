/** The configuration guard (lines 7-16) and the map positioning (lines
    59-85) of scripts/find_square_and_return.js. */
module Positioning {
  import opened Wrappers

  /** The environment variables the script reads; `None` when unset. */
  datatype Env = Env(
    address: Option<string>,
    lat: Option<string>,
    lon: Option<string>,
    callbackUrl: Option<string>,
    callbackSecret: Option<string>)

  /** Truthiness of `process.env.X`: set and not empty. */
  predicate IsSet(v: Option<string>) {
    v.Some? && v.value != ""
  }

  const MissingConfigExit := 2

  /** `if (!CALLBACK_URL || !CALLBACK_SECRET) process.exit(2)`: the exit code,
      or `None` when the script goes on. */
  function ConfigExit(env: Env): (code: Option<int>)
    ensures code.None? <==> IsSet(env.callbackUrl) && IsSet(env.callbackSecret)
    ensures code.Some? ==> code.value == MissingConfigExit
  {
    if !IsSet(env.callbackUrl) || !IsSet(env.callbackSecret) then Some(MissingConfigExit) else None
  }

  /** Which way the map is positioned. The coordinates stay the raw strings
      that `Number()` would convert. */
  datatype Plan = CenterOn(lat: string, lon: string) | SearchFor(address: string) | NoPositioning

  /** `LAT` and `LON` are `null` unless set and non-empty; the coordinates win
      over the address, and an empty address means no positioning. */
  function ChoosePlan(env: Env): (p: Plan)
    ensures p.CenterOn? <==> IsSet(env.lat) && IsSet(env.lon)
    ensures p.CenterOn? ==> p.lat == env.lat.value && p.lon == env.lon.value
    ensures p.SearchFor? <==> !(IsSet(env.lat) && IsSet(env.lon)) && IsSet(env.address)
    ensures p.SearchFor? ==> p.address == env.address.value
  {
    if IsSet(env.lat) && IsSet(env.lon) then CenterOn(env.lat.value, env.lon.value)
    else if IsSet(env.address) then SearchFor(env.address.value)
    else NoPositioning
  }

  /** The search-box selectors, in the order they are tried. */
  const SearchSelectors: seq<string> := [
    "input[placeholder*=\"Search\"]",
    "input[type=\"search\"]",
    "input[aria-label*=\"Search\"]",
    "input[id*=\"search\"]",
    "input[class*=\"search\"]",
    "input"
  ]

  /** What trying one selector on the page comes to: no such element, an
      exception from the lookup, the fill or the key press, or the address
      typed and submitted. */
  datatype Attempt = NoElement | Failed | Submitted

  /** The selector loop: each selector is tried in order until one element
      is found, filled and submitted; failures are swallowed. `probe` stands
      for the page. */
  method SearchAddress(probe: string -> Attempt) returns (tried: seq<string>, submitted: bool)
    ensures 0 < |tried| <= |SearchSelectors| && tried == SearchSelectors[..|tried|]
    ensures forall i :: 0 <= i < |tried| - 1 ==> probe(tried[i]) != Submitted
    ensures submitted <==> probe(tried[|tried| - 1]) == Submitted
    ensures !submitted ==> tried == SearchSelectors
  {
    tried := [];
    submitted := false;
    var k := 0;
    while k < |SearchSelectors|
      invariant 0 <= k <= |SearchSelectors|
      invariant tried == SearchSelectors[..k]
      invariant forall i :: 0 <= i < k ==> probe(tried[i]) != Submitted
      invariant !submitted
    {
      var sel := SearchSelectors[k];
      tried := tried + [sel];
      if probe(sel) == Submitted {
        submitted := true;
        break;
      }
      k := k + 1;
    }
  }

}
