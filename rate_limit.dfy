/**
 * The sliding-window rate limiter (backend/middleware/rate_limit.py): per
 * client address, a history of `(timestamp, count)` samples; a request is
 * refused when the counts of the last minute or of the last hour reach
 * their limits. Timestamps are instants in microseconds (the resolution
 * of `datetime.now()`, which becomes the parameter `now`). Request
 * headers and the socket's peer become optional strings.
 */
module RateLimit {
  import opened Base
  import opened Text
  import opened Listing

  const MicrosPerMinute := 60 * 1000000
  const MicrosPerHour := 60 * MicrosPerMinute

  const DefaultPerMinute := 60
  const DefaultPerHour := 1000

  /** The path prefixes that bypass the limiter. */
  const Whitelist := ["/docs", "/redoc", "/openapi.json", "/api/health", "/"]

  datatype Sample = Sample(at: int, count: int)

  type History = seq<Sample>

  /** A header is used only when present and non-empty (`if forwarded:`). */
  predicate Truthy(h: Option<string>)
  {
    h.Some? && h.value != ""
  }

  /**
   * `_get_client_ip`: the first comma-separated field of `X-Forwarded-For`,
   * stripped; else `X-Real-IP`; else the peer's host; else "unknown".
   */
  function ClientIp(forwarded: Option<string>, realIp: Option<string>, peerHost: Option<string>): (ip: string)
    ensures Truthy(forwarded) ==> ip == Strip(Python, Split(forwarded.value, ',')[0]) && ',' !in ip
    ensures !Truthy(forwarded) && Truthy(realIp) ==> ip == realIp.value
    ensures !Truthy(forwarded) && !Truthy(realIp) ==> ip == (if peerHost.Some? then peerHost.value else "unknown")
  {
    if Truthy(forwarded) then
      var first := Split(forwarded.value, ',')[0];
      StripIsSlice(Python, first);
      Strip(Python, first)
    else if Truthy(realIp) then realIp.value
    else if peerHost.Some? then peerHost.value
    else "unknown"
  }

  /** `sum(count for ts, count in history if ts > since)`. */
  function SumSince(h: History, since: int): int
  {
    if h == [] then 0 else (if h[0].at > since then h[0].count else 0) + SumSince(h[1..], since)
  }

  function NewerThan(since: int): Sample -> bool
  {
    (s: Sample) => s.at > since
  }

  /** `_clean_old_requests`: keeps the samples newer than an hour ago and forgets an address left with none. */
  function Cleaned(history: map<string, History>, ip: string, now: int): (r: map<string, History>)
    ensures ip !in history ==> r == history
    ensures ip in history ==>
              var kept := Filter(history[ip], NewerThan(now - MicrosPerHour));
              (kept == [] ==> r == history - {ip}) && (kept != [] ==> r == history[ip := kept])
    ensures ip in r ==> forall s :: s in r[ip] ==> s in history[ip] && s.at > now - MicrosPerHour
    ensures forall k :: k != ip ==> (k in r <==> k in history) && (k in r ==> r[k] == history[k])
  {
    if ip !in history then history
    else
      var kept := Filter(history[ip], NewerThan(now - MicrosPerHour));
      if kept == [] then history - {ip} else history[ip := kept]
  }

  /** Dropping samples at or before `cutoff` leaves every sum over a window starting no earlier unchanged. */
  lemma {:induction false} CleaningKeepsWindowSums(h: History, cutoff: int, since: int)
    requires since >= cutoff
    ensures SumSince(Filter(h, NewerThan(cutoff)), since) == SumSince(h, since)
  {
    if h != [] {
      CleaningKeepsWindowSums(h[1..], cutoff, since);
      var rest := Filter(h[1..], NewerThan(cutoff));
      if h[0].at > cutoff {
        assert Filter(h, NewerThan(cutoff)) == [h[0]] + rest;
        assert ([h[0]] + rest)[1..] == rest;
      } else {
        assert Filter(h, NewerThan(cutoff)) == rest;
      }
    }
  }

  function MinuteMessage(perMinute: int): string
  {
    "请求过于频繁，每分钟最多" + IntToString(perMinute) + "次请求"
  }

  function HourMessage(perHour: int): string
  {
    "请求过于频繁，每小时最多" + IntToString(perHour) + "次请求"
  }

  /** The verdict of `_check_rate_limit` on an address's (cleaned) history: the minute limit first, then the hour limit. */
  function Verdict(perMinute: int, perHour: int, h: History, now: int): (r: (bool, string))
    ensures r.0 <==> SumSince(h, now - MicrosPerMinute) < perMinute && SumSince(h, now - MicrosPerHour) < perHour
    ensures r.0 ==> r.1 == ""
    ensures !r.0 && SumSince(h, now - MicrosPerMinute) >= perMinute ==> r.1 == MinuteMessage(perMinute)
    ensures !r.0 && SumSince(h, now - MicrosPerMinute) < perMinute ==> r.1 == HourMessage(perHour)
  {
    if SumSince(h, now - MicrosPerMinute) >= perMinute then (false, MinuteMessage(perMinute))
    else if SumSince(h, now - MicrosPerHour) >= perHour then (false, HourMessage(perHour))
    else (true, "")
  }

  /** `defaultdict(list)`: reading a missing address stores an empty history for it. */
  function Touched(history: map<string, History>, ip: string): (r: map<string, History>)
    ensures ip in r && (ip in history ==> r == history) && (ip !in history ==> r == history[ip := []])
  {
    if ip in history then history else history[ip := []]
  }

  /** The history `_check_rate_limit` reads back after cleaning. */
  function CleanedFor(history: map<string, History>, ip: string, now: int): History
  {
    Touched(Cleaned(history, ip, now), ip)[ip]
  }

  /** Cleaning first does not change the verdict: it is the one the raw history gives. */
  lemma VerdictIgnoresCleaning(perMinute: int, perHour: int, history: map<string, History>, ip: string, now: int)
    ensures var raw := if ip in history then history[ip] else [];
            Verdict(perMinute, perHour, CleanedFor(history, ip, now), now) == Verdict(perMinute, perHour, raw, now)
  {
    if ip in history {
      var cutoff := now - MicrosPerHour;
      CleaningKeepsWindowSums(history[ip], cutoff, now - MicrosPerMinute);
      CleaningKeepsWindowSums(history[ip], cutoff, cutoff);
      var kept := Filter(history[ip], NewerThan(cutoff));
      if kept == [] {
        assert CleanedFor(history, ip, now) == [];
      }
    }
  }

  /** `any(path.startswith(p) for p in whitelist_paths)`. */
  predicate Whitelisted(path: string)
  {
    exists i :: 0 <= i < |Whitelist| && StartsWith(path, Whitelist[i])
  }

  /** "/" is on the list, so every path that starts with "/" (every request path) bypasses the limiter. */
  lemma RootWhitelistsEverything(path: string)
    requires StartsWith(path, "/")
    ensures Whitelisted(path)
  {
    assert Whitelist[4] == "/";
  }

  /** What `dispatch` does with a request. */
  datatype Outcome =
    | PassedThrough      // whitelisted: neither checked nor recorded
    | TooManyRequests(detail: string)
    | Recorded           // allowed and appended to the history

  /** `RateLimitMiddleware`: the two limits and the per-address history. */
  class RateLimiter {
    const perMinute: int
    const perHour: int
    var history: map<string, History>

    constructor(perMinute: int, perHour: int)
      ensures this.perMinute == perMinute && this.perHour == perHour && history == map[]
    {
      this.perMinute := perMinute;
      this.perHour := perHour;
      history := map[];
    }

    /** `_clean_old_requests`. */
    method CleanOldRequests(ip: string, now: int)
      modifies this
      ensures history == Cleaned(old(history), ip, now)
    {
      if ip !in history {
        return;
      }
      var kept := Filter(history[ip], NewerThan(now - MicrosPerHour));
      history := history[ip := kept];
      if history[ip] == [] {
        history := history - {ip};
      }
    }

    /** `_check_rate_limit`: cleans, reads the address's history (creating it), and judges. */
    method CheckRateLimit(ip: string, now: int) returns (allowed: bool, message: string)
      modifies this
      ensures (allowed, message) == Verdict(perMinute, perHour, CleanedFor(old(history), ip, now), now)
      ensures history == Touched(Cleaned(old(history), ip, now), ip)
    {
      CleanOldRequests(ip, now);
      if ip !in history {
        history := history[ip := []];
      }
      var h := history[ip];
      var recent := SumSince(h, now - MicrosPerMinute);
      if recent >= perMinute {
        return false, MinuteMessage(perMinute);
      }
      var hourly := SumSince(h, now - MicrosPerHour);
      if hourly >= perHour {
        return false, HourMessage(perHour);
      }
      return true, "";
    }

    /** `dispatch`, up to handing the request on: whitelist, address, verdict, record. */
    method Dispatch(path: string, forwarded: Option<string>, realIp: Option<string>, peerHost: Option<string>, now: int)
      returns (outcome: Outcome)
      modifies this
      ensures Whitelisted(path) ==> outcome == PassedThrough && history == old(history)
      ensures !Whitelisted(path) ==>
                var ip := ClientIp(forwarded, realIp, peerHost);
                var checked := Touched(Cleaned(old(history), ip, now), ip);
                var verdict := Verdict(perMinute, perHour, checked[ip], now);
                && (verdict.0 ==> outcome == Recorded && history == checked[ip := checked[ip] + [Sample(now, 1)]])
                && (!verdict.0 ==> outcome == TooManyRequests(verdict.1) && history == checked)
    {
      var i := 0;
      while i < |Whitelist|
        invariant 0 <= i <= |Whitelist|
        invariant forall j :: 0 <= j < i ==> !StartsWith(path, Whitelist[j])
      {
        if StartsWith(path, Whitelist[i]) {
          return PassedThrough;
        }
        i := i + 1;
      }
      var ip := ClientIp(forwarded, realIp, peerHost);
      var allowed, message := CheckRateLimit(ip, now);
      if !allowed {
        return TooManyRequests(message);
      }
      history := history[ip := history[ip] + [Sample(now, 1)]];
      outcome := Recorded;
    }
  }
}
