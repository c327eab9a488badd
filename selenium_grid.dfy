/** The demand calculator of the Selenium Grid scaler: the grid snapshot it
    reads, the two rules by which queued requests and active sessions match
    the configured browser, and the count of matches normalised to nodes. */
module SeleniumGrid {
  import opened Wrappers
  import opened Counting

  /** The browser version that stands for "no particular version". */
  const DefaultBrowserVersion: string := "latest"

  const MinInt64: int := -0x8000_0000_0000_0000
  const MaxInt64: int := 0x7fff_ffff_ffff_ffff

  /** The parsed form of a capability string. */
  datatype Capability = Capability(browserName: string, browserVersion: string)

  /** A running session; `capabilities` is a serialized `Capability`. */
  datatype SeleniumSession = SeleniumSession(id: string, capabilities: string, nodeId: string)

  /** The grid-wide settings in the status answer. */
  datatype Grid = Grid(maxSession: int)

  /** The decoded status answer: the grid settings, the capability strings
      of the queued session requests, and the active sessions. */
  datatype Snapshot = Snapshot(grid: Grid, sessionQueueRequests: seq<string>, sessions: seq<SeleniumSession>)

  /** The only error of the calculator: the answer body did not decode. */
  datatype CountError = UndecodableResponse

  /** `strings.HasPrefix`: `prefix` is an initial segment of `s`. */
  predicate HasPrefix(s: string, prefix: string)
  {
    |prefix| <= |s| && s[..|prefix|] == prefix
  }

  /** A queued request's capability matches the target: same browser name,
      and a version the target is a prefix of, or no version at all when
      the target is the default version. Every such capability also matches
      as an active session; one without a version matches exactly when the
      target is the default version (or the empty version, which the
      metadata parser never produces). */
  predicate QueueMatches(c: Capability, browserName: string, browserVersion: string)
    ensures QueueMatches(c, browserName, browserVersion) ==> SessionMatches(c, browserName, browserVersion)
    ensures c.browserVersion == "" ==>
              (QueueMatches(c, browserName, browserVersion) <==>
               (c.browserName == browserName
                && (browserVersion == DefaultBrowserVersion || browserVersion == "")))
  {
    c.browserName == browserName &&
    (HasPrefix(c.browserVersion, browserVersion) ||
     (c.browserVersion == "" && browserVersion == DefaultBrowserVersion))
  }

  /** An active session's capability matches the target: same browser name,
      and a version the target is a prefix of, or any version at all when
      the target is the default version. So with the default target the
      name alone decides, and with any target a different name never
      matches. */
  predicate SessionMatches(c: Capability, browserName: string, browserVersion: string)
    ensures browserVersion == DefaultBrowserVersion ==>
              (SessionMatches(c, browserName, browserVersion) <==> c.browserName == browserName)
    ensures c.browserName != browserName ==> !SessionMatches(c, browserName, browserVersion)
  {
    c.browserName == browserName &&
    (HasPrefix(c.browserVersion, browserVersion) || browserVersion == DefaultBrowserVersion)
  }

  /** A queued request counts when its capability string decodes and matches. */
  predicate QueuedRequestCounts(decode: string -> Option<Capability>, request: string,
                                browserName: string, browserVersion: string)
  {
    match decode(request)
    case None => false
    case Some(c) => QueueMatches(c, browserName, browserVersion)
  }

  /** An active session counts when its capability string decodes and matches. */
  predicate ActiveSessionCounts(decode: string -> Option<Capability>, session: SeleniumSession,
                                browserName: string, browserVersion: string)
  {
    match decode(session.capabilities)
    case None => false
    case Some(c) => SessionMatches(c, browserName, browserVersion)
  }

  /** The number of queued requests that count. */
  function QueueCount(snapshot: Snapshot, browserName: string, browserVersion: string,
                      decode: string -> Option<Capability>): nat
  {
    Count(snapshot.sessionQueueRequests,
          (r: string) => QueuedRequestCounts(decode, r, browserName, browserVersion))
  }

  /** The number of active sessions that count. */
  function SessionCount(snapshot: Snapshot, browserName: string, browserVersion: string,
                        decode: string -> Option<Capability>): nat
  {
    Count(snapshot.sessions,
          (s: SeleniumSession) => ActiveSessionCounts(decode, s, browserName, browserVersion))
  }

  /** Queued and active demand are the same unit of work: they are summed. */
  function RawCount(snapshot: Snapshot, browserName: string, browserVersion: string,
                    decode: string -> Option<Capability>): nat
  {
    QueueCount(snapshot, browserName, browserVersion, decode) +
    SessionCount(snapshot, browserName, browserVersion, decode)
  }

  /** The number of nodes needed for `count` sessions when each node holds
      `maxSession` of them: the ceiling of count / maxSession, and `count`
      itself when the capacity is not positive. Written with a quotient and
      a remainder so that no intermediate value exceeds `count`. */
  function Normalize(count: nat, maxSession: int): (r: nat)
    ensures maxSession > 0 ==> (r - 1) * maxSession < count <= r * maxSession
    ensures maxSession > 0 ==> r == (count + maxSession - 1) / maxSession
    ensures maxSession <= 0 ==> r == count
    ensures r == 0 <==> count == 0
    ensures r <= count
  {
    if maxSession > 0 then
      var q, rem := count / maxSession, count % maxSession;
      var r := q + (if rem == 0 then 0 else 1);
      CeilingFromQuotient(count, maxSession, q, rem, r);
      r
    else
      count
  }

  lemma CeilingFromQuotient(count: nat, m: int, q: int, rem: int, r: int)
    requires m > 0 && q == count / m && rem == count % m
    requires r == q + (if rem == 0 then 0 else 1)
    ensures (r - 1) * m < count <= r * m
    ensures r == (count + m - 1) / m
    ensures r == 0 <==> count == 0
    ensures 0 <= r <= count
  {
    assert count == q * m + rem && 0 <= rem < m;
    assert q >= 0;
    assert q * m >= q by { MultiplyAtLeast(q, m); }
    assert (r - 1) * m == r * m - m;
    if rem == 0 {
      DivisionOf(count + m - 1, m, q);
    } else {
      assert r * m == q * m + m;
      DivisionOf(count + m - 1, m, q + 1);
    }
  }

  lemma MultiplyAtLeast(q: int, m: int)
    requires q >= 0 && m >= 1
    ensures q * m >= q
  {
  }

  lemma DivisionOf(a: int, m: int, q: int)
    requires m > 0 && q * m <= a < q * m + m
    ensures a / m == q
  {
    var d := a / m;
    assert d * m <= a < d * m + m;
    MultiplyMonotone(q + 1, d, m);
    MultiplyMonotone(d + 1, q, m);
    assert (q + 1) * m == q * m + m;
    assert (d + 1) * m == d * m + m;
  }

  lemma MultiplyMonotone(x: int, y: int, m: int)
    requires m >= 0
    ensures x <= y ==> x * m <= y * m
  {
  }

  /** The demand figure: the raw match count normalised to nodes. */
  function Demand(snapshot: Snapshot, browserName: string, browserVersion: string,
                  decode: string -> Option<Capability>): nat
  {
    Normalize(RawCount(snapshot, browserName, browserVersion, decode), snapshot.grid.maxSession)
  }

  /** Decodes the status answer `body` and counts its queued requests and
      active sessions that match the target browser, then normalises the
      count to nodes. A capability string that does not decode is skipped;
      a body that does not decode is an error. */
  method GetCountFromSeleniumResponse(body: seq<bv8>, browserName: string, browserVersion: string,
                                      decodeResponse: seq<bv8> -> Option<Snapshot>,
                                      decode: string -> Option<Capability>)
    returns (r: Result<int, CountError>)
    ensures decodeResponse(body).None? ==> r == Failure(UndecodableResponse)
    ensures decodeResponse(body).Some? ==>
              r == Success(Demand(decodeResponse(body).value, browserName, browserVersion, decode))
  {
    var count: int := 0;
    var snapshot;
    match decodeResponse(body) {
      case None =>
        return Failure(UndecodableResponse);
      case Some(s) =>
        snapshot := s;
    }

    var sessionQueueRequests := snapshot.sessionQueueRequests;
    ghost var queued := (q: string) => QueuedRequestCounts(decode, q, browserName, browserVersion);
    for i := 0 to |sessionQueueRequests|
      invariant count == Count(sessionQueueRequests[..i], queued)
    {
      assert sessionQueueRequests[..i + 1][..i] == sessionQueueRequests[..i];
      match decode(sessionQueueRequests[i]) {
        case Some(capability) =>
          if capability.browserName == browserName {
            if HasPrefix(capability.browserVersion, browserVersion) {
              count := count + 1;
            } else if capability.browserVersion == "" && browserVersion == DefaultBrowserVersion {
              count := count + 1;
            }
          }
        case None =>
          // the scaler logs the decoding error and goes on with the next request
      }
    }
    assert sessionQueueRequests[..|sessionQueueRequests|] == sessionQueueRequests;

    var sessions := snapshot.sessions;
    ghost var active := (s: SeleniumSession) => ActiveSessionCounts(decode, s, browserName, browserVersion);
    ghost var queuedCount := count;
    for i := 0 to |sessions|
      invariant count == queuedCount + Count(sessions[..i], active)
    {
      assert sessions[..i + 1][..i] == sessions[..i];
      match decode(sessions[i].capabilities) {
        case Some(capability) =>
          if capability.browserName == browserName {
            if HasPrefix(capability.browserVersion, browserVersion) {
              count := count + 1;
            } else if browserVersion == DefaultBrowserVersion {
              count := count + 1;
            }
          }
        case None =>
          // the scaler logs the decoding error and goes on with the next session
      }
    }
    assert sessions[..|sessions|] == sessions;

    var gridMaxSession := snapshot.grid.maxSession;
    if gridMaxSession > 0 {
      count := count / gridMaxSession + (if count % gridMaxSession == 0 then 0 else 1);
    }
    return Success(count);
  }

  /** `IsActive`: a failed count (a transport, status or decoding error) is
      passed on; otherwise the scaler is active exactly when the count is
      positive. */
  function IsActive<E>(count: Result<int, E>): (r: Result<bool, E>)
    ensures r.Failure? <==> count.Failure?
    ensures count.Failure? ==> r.error == count.error
    ensures count.Success? ==> (r.value <==> count.value > 0)
  {
    match count
    case Failure(e) => Failure(e)
    case Success(v) => Success(v > 0)
  }

  /** Two's-complement wrap-around of a 64-bit signed integer. */
  function Wrap64(x: int): (r: int)
    ensures MinInt64 <= r <= MaxInt64
    ensures MinInt64 <= x <= MaxInt64 ==> r == x
  {
    (x - MinInt64) % 0x1_0000_0000_0000_0000 + MinInt64
  }

  /** Go's integer division, which truncates toward zero. */
  function GoDiv(a: int, b: int): (r: int)
    requires b > 0
    ensures a >= 0 ==> r == a / b
    ensures MinInt64 <= a <= MaxInt64 ==> MinInt64 <= r <= MaxInt64
  {
    if a >= 0 then
      QuotientAtMost(a, b);
      a / b
    else
      QuotientAtMost(-a, b);
      -((-a) / b)
  }

  lemma QuotientAtMost(x: nat, b: int)
    requires b > 0
    ensures 0 <= x / b <= x
  {
    MultiplyAtLeast(x / b, b);
  }

  /** The normalisation as the scaler writes it in 64-bit arithmetic:
      `count + gridMaxSession - 1` may wrap around before the division.
      The result is always a 64-bit value when the capacity is positive;
      it is the mathematical `(count + gridMaxSession - 1) / gridMaxSession`
      only when the sum does not wrap around. */
  function NormalizeAsWritten(count: int, gridMaxSession: int): (r: int)
    ensures gridMaxSession > 0 ==> MinInt64 <= r <= MaxInt64
    ensures gridMaxSession <= 0 ==> r == count
    ensures (0 <= count && 0 < gridMaxSession && count + gridMaxSession - 1 <= MaxInt64)
              ==> r == (count + gridMaxSession - 1) / gridMaxSession
  {
    if gridMaxSession > 0 then GoDiv(Wrap64(count + gridMaxSession - 1), gridMaxSession)
    else count
  }
}
