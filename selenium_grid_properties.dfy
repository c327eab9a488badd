/** What the demand calculator promises: how its two match rules relate,
    that undecodable entries are ignored, bounds on the count, when the
    scaler is active, and the overflow in the source's normalisation. */
module SeleniumGridProperties {
  import opened Wrappers
  import opened Counting
  import opened SeleniumGrid

  /** The two rules differ exactly on capabilities with a non-empty version
      that the default-version target is not a prefix of. */
  lemma SessionOnlyMatch(c: Capability, browserName: string, browserVersion: string)
    ensures (SessionMatches(c, browserName, browserVersion) && !QueueMatches(c, browserName, browserVersion))
              <==> (c.browserName == browserName && browserVersion == DefaultBrowserVersion
                    && c.browserVersion != "" && !HasPrefix(c.browserVersion, browserVersion))
  {
  }

  /** Version-family matching: "96.0.4664.45" matches target "96" by both
      rules and target "97" by neither. */
  lemma PrefixMatchExample()
    ensures QueueMatches(Capability("chrome", "96.0.4664.45"), "chrome", "96")
    ensures SessionMatches(Capability("chrome", "96.0.4664.45"), "chrome", "96")
    ensures !QueueMatches(Capability("chrome", "96.0.4664.45"), "chrome", "97")
    ensures !SessionMatches(Capability("chrome", "96.0.4664.45"), "chrome", "97")
  {
  }

  /** The asymmetry: with the default target, version "96.0" matches as an
      active session but not as a queued request. */
  lemma LatestTargetAsymmetry()
    ensures SessionMatches(Capability("chrome", "96.0"), "chrome", DefaultBrowserVersion)
    ensures !QueueMatches(Capability("chrome", "96.0"), "chrome", DefaultBrowserVersion)
  {
  }

  /** A queued request whose capability string does not decode adds nothing:
      removing it changes neither the raw count nor the demand. */
  lemma UndecodableQueuedRequestIgnored(snapshot: Snapshot, i: nat, browserName: string,
                                        browserVersion: string, decode: string -> Option<Capability>)
    requires i < |snapshot.sessionQueueRequests|
    requires decode(snapshot.sessionQueueRequests[i]).None?
    ensures var q := snapshot.sessionQueueRequests;
            var removed := snapshot.(sessionQueueRequests := q[..i] + q[i + 1..]);
            RawCount(removed, browserName, browserVersion, decode) == RawCount(snapshot, browserName, browserVersion, decode)
            && Demand(removed, browserName, browserVersion, decode) == Demand(snapshot, browserName, browserVersion, decode)
  {
    CountRemoveUncounted(snapshot.sessionQueueRequests, i,
                         (r: string) => QueuedRequestCounts(decode, r, browserName, browserVersion));
  }

  /** An active session whose capability string does not decode adds
      nothing: removing it changes neither the raw count nor the demand. */
  lemma UndecodableSessionIgnored(snapshot: Snapshot, i: nat, browserName: string,
                                  browserVersion: string, decode: string -> Option<Capability>)
    requires i < |snapshot.sessions|
    requires decode(snapshot.sessions[i].capabilities).None?
    ensures var s := snapshot.sessions;
            var removed := snapshot.(sessions := s[..i] + s[i + 1..]);
            RawCount(removed, browserName, browserVersion, decode) == RawCount(snapshot, browserName, browserVersion, decode)
            && Demand(removed, browserName, browserVersion, decode) == Demand(snapshot, browserName, browserVersion, decode)
  {
    CountRemoveUncounted(snapshot.sessions, i,
                         (s: SeleniumSession) => ActiveSessionCounts(decode, s, browserName, browserVersion));
  }

  /** No entry is counted twice: the raw count is at most the number of
      entries, and the demand at most the raw count. */
  lemma CountBounds(snapshot: Snapshot, browserName: string, browserVersion: string,
                    decode: string -> Option<Capability>)
    ensures RawCount(snapshot, browserName, browserVersion, decode)
              <= |snapshot.sessionQueueRequests| + |snapshot.sessions|
    ensures Demand(snapshot, browserName, browserVersion, decode)
              <= RawCount(snapshot, browserName, browserVersion, decode)
  {
    CountAtMostLength(snapshot.sessionQueueRequests,
                      (r: string) => QueuedRequestCounts(decode, r, browserName, browserVersion));
    CountAtMostLength(snapshot.sessions,
                      (s: SeleniumSession) => ActiveSessionCounts(decode, s, browserName, browserVersion));
  }

  /** With no queued requests and no sessions the demand is 0 whatever the
      target and the node capacity. */
  lemma EmptySnapshotNoDemand(snapshot: Snapshot, browserName: string, browserVersion: string,
                              decode: string -> Option<Capability>)
    requires snapshot.sessionQueueRequests == [] && snapshot.sessions == []
    ensures Demand(snapshot, browserName, browserVersion, decode) == 0
  {
  }

  /** Some entry matches: a queued request or an active session counts. */
  ghost predicate SomeEntryMatches(snapshot: Snapshot, browserName: string, browserVersion: string,
                                   decode: string -> Option<Capability>)
  {
    || (exists i :: 0 <= i < |snapshot.sessionQueueRequests|
          && QueuedRequestCounts(decode, snapshot.sessionQueueRequests[i], browserName, browserVersion))
    || (exists j :: 0 <= j < |snapshot.sessions|
          && ActiveSessionCounts(decode, snapshot.sessions[j], browserName, browserVersion))
  }

  /** The scaler is active exactly when some queued request or active
      session matches the target, whatever the node capacity. */
  lemma ActiveIffSomeEntryMatches(snapshot: Snapshot, browserName: string, browserVersion: string,
                                  decode: string -> Option<Capability>)
    ensures (Demand(snapshot, browserName, browserVersion, decode) > 0)
              <==> SomeEntryMatches(snapshot, browserName, browserVersion, decode)
    ensures IsActive<CountError>(Success(Demand(snapshot, browserName, browserVersion, decode)))
              == Success(SomeEntryMatches(snapshot, browserName, browserVersion, decode))
  {
    var queued := (r: string) => QueuedRequestCounts(decode, r, browserName, browserVersion);
    var active := (s: SeleniumSession) => ActiveSessionCounts(decode, s, browserName, browserVersion);
    CountPositiveIff(snapshot.sessionQueueRequests, queued);
    CountPositiveIff(snapshot.sessions, active);
  }

  /** Three queued requests without a version and one session on version
      "96.0", all for chrome, with the default target: the raw count is 4,
      so two nodes of two sessions each are needed, and four when the node
      capacity is unknown (0). */
  lemma WorkedExample(decode: string -> Option<Capability>)
    requires decode("q1") == Some(Capability("chrome", ""))
    requires decode("q2") == Some(Capability("chrome", ""))
    requires decode("q3") == Some(Capability("chrome", ""))
    requires decode("s1") == Some(Capability("chrome", "96.0"))
    ensures var snapshot := Snapshot(Grid(2), ["q1", "q2", "q3"], [SeleniumSession("a", "s1", "n")]);
            RawCount(snapshot, "chrome", DefaultBrowserVersion, decode) == 4
            && Demand(snapshot, "chrome", DefaultBrowserVersion, decode) == 2
            && Demand(snapshot.(grid := Grid(0)), "chrome", DefaultBrowserVersion, decode) == 4
  {
    var queued := (r: string) => QueuedRequestCounts(decode, r, "chrome", DefaultBrowserVersion);
    var requests := ["q1", "q2", "q3"];
    assert requests[..2] == ["q1", "q2"] && requests[..2][..1] == ["q1"] && ["q1"][..0] == [];
    assert Count(["q1"], queued) == 1;
    assert Count(["q1", "q2"], queued) == 2;
    assert Count(requests, queued) == 3;
  }

  /** Finding, as written: with a node capacity near the 64-bit maximum,
      `count + gridMaxSession - 1` wraps around and two matching sessions
      yield -1 nodes, where one node is needed. */
  lemma NormalizeAsWrittenOverflows()
    ensures NormalizeAsWritten(2, MaxInt64) == -1
    ensures Normalize(2, MaxInt64) == 1
  {
  }

  /** Finding, corrected: wherever the source's 64-bit sum does not wrap
      around, the overflow-free normalisation computes the same value. */
  lemma NormalizeAgreesWithoutOverflow(count: nat, gridMaxSession: int)
    requires gridMaxSession > 0 ==> count + gridMaxSession - 1 <= MaxInt64
    ensures NormalizeAsWritten(count, gridMaxSession) == Normalize(count, gridMaxSession)
  {
  }

  /** Finding, corrected: for 64-bit inputs the corrected normalisation,
      evaluated in 64-bit arithmetic step by step (quotient, remainder,
      rounding up), never wraps around and yields `Normalize`. */
  lemma NormalizeFitsInt64(count: nat, gridMaxSession: int)
    requires count <= MaxInt64 && gridMaxSession <= MaxInt64
    ensures MinInt64 <= Normalize(count, gridMaxSession) <= MaxInt64
    ensures gridMaxSession > 0 ==>
              Wrap64(Wrap64(count / gridMaxSession)
                     + (if Wrap64(count % gridMaxSession) == 0 then 0 else 1))
              == Normalize(count, gridMaxSession)
  {
  }
}
