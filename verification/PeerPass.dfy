/** `resolve_peers`: one search for every declared peer, the report, and the resolved peers
    written into the graph. */
module PeerPass {
  import opened Base
  import opened DependencyGraph
  import opened Peers

  datatype Request = Request(requiredBy: string, peerName: string, range: string, isOptional: bool)

  datatype Resolution =
    | SatisfiedPeer(requiredBy: string, peerName: string, peerKey: string)
    | MissingPeer(requiredBy: string, peerName: string, range: string)
    | ConflictPeer(requiredBy: string, peerName: string, range: string, foundVersion: string)

  datatype Report = Report(satisfied: seq<Resolution>, missing: seq<Resolution>, conflicts: seq<Resolution>,
                           optionalMissing: seq<string>)

  const EMPTY_REPORT: Report := Report([], [], [], [])

  predicate Declares(nodes: Nodes, key: string, peer: string) {
    key in nodes && peer in nodes[key].peerDependencies
  }

  function RequestFor(nodes: Nodes, key: string, peer: string): Request
    requires Declares(nodes, key, peer)
  {
    Request(key, peer, nodes[key].peerDependencies[peer], peer in nodes[key].optionalPeers)
  }

  ghost predicate RequestOk(nodes: Nodes, r: Request) {
    Declares(nodes, r.requiredBy, r.peerName) && r == RequestFor(nodes, r.requiredBy, r.peerName)
  }

  ghost predicate Requested(work: seq<Request>, key: string, peer: string) {
    exists i :: 0 <= i < |work| && work[i].requiredBy == key && work[i].peerName == peer
  }

  ghost predicate NoDuplicates(work: seq<Request>) {
    forall i, j :: 0 <= i < j < |work| ==>
      work[i].requiredBy != work[j].requiredBy || work[i].peerName != work[j].peerName
  }

  /** Every declared peer exactly once, in any order. */
  ghost predicate IsWork(nodes: Nodes, work: seq<Request>) {
    && NoDuplicates(work)
    && (forall i :: 0 <= i < |work| ==> RequestOk(nodes, work[i]))
    && (forall key, peer :: Declares(nodes, key, peer) ==> Requested(work, key, peer))
  }

  // ---------- what the outcomes do ----------

  function AddOutcome(report: Report, w: Request, outcome: Lookup): Report {
    match outcome
    case Found(key) => report.(satisfied := report.satisfied + [SatisfiedPeer(w.requiredBy, w.peerName, key)])
    case Missing =>
      if w.isOptional then report.(optionalMissing := report.optionalMissing + [w.peerName])
      else report.(missing := report.missing + [MissingPeer(w.requiredBy, w.peerName, w.range)])
    case Conflict(v) => report.(conflicts := report.conflicts + [ConflictPeer(w.requiredBy, w.peerName, w.range, v)])
  }

  function ReportOf(work: seq<Request>, outcomes: seq<Lookup>): Report
    requires |outcomes| == |work|
    decreases |work|
  {
    if work == [] then EMPTY_REPORT
    else
      var n := |work| - 1;
      AddOutcome(ReportOf(work[..n], outcomes[..n]), work[n], outcomes[n])
  }

  function Resolve(nodes: Nodes, w: Request, outcome: Lookup): Nodes {
    if outcome.Found? && w.requiredBy in nodes then
      var node := nodes[w.requiredBy];
      nodes[w.requiredBy := node.(resolvedPeers := node.resolvedPeers[w.peerName := outcome.key])]
    else nodes
  }

  function Resolved(nodes: Nodes, work: seq<Request>, outcomes: seq<Lookup>): Nodes
    requires |outcomes| == |work|
    decreases |work|
  {
    if work == [] then nodes
    else
      var n := |work| - 1;
      Resolve(Resolved(nodes, work[..n], outcomes[..n]), work[n], outcomes[n])
  }

  /** The list of the report an outcome belongs to. */
  datatype Heading = Satisfied | Absent | Conflicting | OptionallyAbsent

  function HeadingOf(w: Request, outcome: Lookup): Heading {
    match outcome
    case Found(_) => Satisfied
    case Missing => if w.isOptional then OptionallyAbsent else Absent
    case Conflict(_) => Conflicting
  }

  /** The positions of the requests that belong under a heading, in their order. */
  function Under(work: seq<Request>, outcomes: seq<Lookup>, heading: Heading): (at: seq<nat>)
    requires |outcomes| == |work|
    ensures forall i :: 0 <= i < |at| ==> at[i] < |work|
    ensures forall i :: 0 <= i < |at| ==> HeadingOf(work[at[i]], outcomes[at[i]]) == heading
    ensures forall i, j :: 0 <= i < j < |at| ==> at[i] < at[j]
    ensures forall k :: 0 <= k < |work| && HeadingOf(work[k], outcomes[k]) == heading ==> k in at
    decreases |work|
  {
    if work == [] then []
    else
      var n := |work| - 1;
      var front := Under(work[..n], outcomes[..n], heading);
      if HeadingOf(work[n], outcomes[n]) == heading then front + [n] else front
  }

  /** The entry an outcome is reported by; optional peers that are missing go by their name
      alone. */
  function EntryFor(w: Request, outcome: Lookup): Resolution {
    match outcome
    case Found(key) => SatisfiedPeer(w.requiredBy, w.peerName, key)
    case Missing => MissingPeer(w.requiredBy, w.peerName, w.range)
    case Conflict(v) => ConflictPeer(w.requiredBy, w.peerName, w.range, v)
  }

  function EntriesUnder(work: seq<Request>, outcomes: seq<Lookup>, heading: Heading): (entries: seq<Resolution>)
    requires |outcomes| == |work|
  {
    var at := Under(work, outcomes, heading);
    seq(|at|, i requires 0 <= i < |at| => EntryFor(work[at[i]], outcomes[at[i]]))
  }

  function NamesUnder(work: seq<Request>, outcomes: seq<Lookup>, heading: Heading): (names: seq<string>)
    requires |outcomes| == |work|
  {
    var at := Under(work, outcomes, heading);
    seq(|at|, i requires 0 <= i < |at| => work[at[i]].peerName)
  }

  lemma UnderStep(work: seq<Request>, outcomes: seq<Lookup>, heading: Heading)
    requires |outcomes| == |work| > 0
    ensures var n := |work| - 1;
            var more := HeadingOf(work[n], outcomes[n]) == heading;
            && EntriesUnder(work, outcomes, heading) ==
               EntriesUnder(work[..n], outcomes[..n], heading) + (if more then [EntryFor(work[n], outcomes[n])] else [])
            && NamesUnder(work, outcomes, heading) ==
               NamesUnder(work[..n], outcomes[..n], heading) + (if more then [work[n].peerName] else [])
  {
    hide HeadingOf, EntryFor;
    var n := |work| - 1;
    var front := Under(work[..n], outcomes[..n], heading);
    forall i | 0 <= i < |front|
      ensures work[..n][front[i]] == work[front[i]] && outcomes[..n][front[i]] == outcomes[front[i]]
    {
    }
  }

  /** The report, exactly: each of the four lists holds one entry for each request under its
      heading, in their order, and nothing else. */
  lemma {:induction false} ReportIsExact(work: seq<Request>, outcomes: seq<Lookup>)
    requires |outcomes| == |work|
    ensures var report := ReportOf(work, outcomes);
            && report.satisfied == EntriesUnder(work, outcomes, Satisfied)
            && report.missing == EntriesUnder(work, outcomes, Absent)
            && report.conflicts == EntriesUnder(work, outcomes, Conflicting)
            && report.optionalMissing == NamesUnder(work, outcomes, OptionallyAbsent)
    decreases |work|
  {
    hide EntriesUnder, NamesUnder;
    if work == [] {
      NothingUnder(outcomes);
    } else {
      ReportIsExact(work[..|work| - 1], outcomes[..|work| - 1]);
      UnderStep(work, outcomes, Satisfied);
      UnderStep(work, outcomes, Absent);
      UnderStep(work, outcomes, Conflicting);
      UnderStep(work, outcomes, OptionallyAbsent);
    }
  }

  lemma NothingUnder(outcomes: seq<Lookup>)
    requires outcomes == []
    ensures forall heading :: EntriesUnder([], outcomes, heading) == [] && NamesUnder([], outcomes, heading) == []
  {
  }

  // ---------- each peer in one list ----------

  predicate Concerns(entry: Resolution, key: string, peer: string) {
    entry.requiredBy == key && entry.peerName == peer
  }

  /** How many entries of a list are about this peer of this package. */
  function Mentions(entries: seq<Resolution>, key: string, peer: string): nat {
    if entries == [] then 0
    else Mentions(entries[..|entries| - 1], key, peer) + (if Concerns(entries[|entries| - 1], key, peer) then 1 else 0)
  }

  lemma {:induction false} NoRequestNoMention(work: seq<Request>, outcomes: seq<Lookup>, heading: Heading, key: string,
                                              peer: string)
    requires |outcomes| == |work| && !Requested(work, key, peer)
    ensures Mentions(EntriesUnder(work, outcomes, heading), key, peer) == 0
    decreases |work|
  {
    hide EntriesUnder, HeadingOf;
    if work == [] {
      NothingUnder(outcomes);
    } else {
      var n := |work| - 1;
      forall i | 0 <= i < n ensures !(work[..n][i].requiredBy == key && work[..n][i].peerName == peer) {
        assert work[i] == work[..n][i];
      }
      NoRequestNoMention(work[..n], outcomes[..n], heading, key, peer);
      UnderStep(work, outcomes, heading);
      assert !Concerns(EntryFor(work[n], outcomes[n]), key, peer);
      MentionsSnoc(EntriesUnder(work[..n], outcomes[..n], heading), EntryFor(work[n], outcomes[n]), key, peer);
      hide EntryFor;
    }
  }

  lemma MentionsSnoc(entries: seq<Resolution>, last: Resolution, key: string, peer: string)
    ensures Mentions(entries + [last], key, peer) ==
            Mentions(entries, key, peer) + (if Concerns(last, key, peer) then 1 else 0)
    ensures entries + [] == entries
  {
    assert (entries + [last])[..|entries|] == entries;
  }

  /** One entry under the request's own heading, none under any other. */
  lemma {:induction false} MentionsOfRequest(work: seq<Request>, outcomes: seq<Lookup>, heading: Heading, i: nat)
    requires |outcomes| == |work| && NoDuplicates(work) && i < |work|
    ensures Mentions(EntriesUnder(work, outcomes, heading), work[i].requiredBy, work[i].peerName) ==
            if HeadingOf(work[i], outcomes[i]) == heading then 1 else 0
    decreases |work|
  {
    hide EntriesUnder, HeadingOf;
    var n := |work| - 1;
    var key, peer := work[i].requiredBy, work[i].peerName;
    UnderStep(work, outcomes, heading);
    MentionsSnoc(EntriesUnder(work[..n], outcomes[..n], heading), EntryFor(work[n], outcomes[n]), key, peer);
    assert Concerns(EntryFor(work[n], outcomes[n]), key, peer) <==> i == n;
    hide EntryFor;
    if i < n {
      MentionsOfRequest(work[..n], outcomes[..n], heading, i);
    } else {
      assert !Requested(work[..n], key, peer);
      NoRequestNoMention(work[..n], outcomes[..n], heading, key, peer);
    }
  }

  /** What the report says of one request: an entry in the list it belongs to. */
  ghost predicate Reported(report: Report, w: Request, outcome: Lookup) {
    match HeadingOf(w, outcome)
    case Satisfied => EntryFor(w, outcome) in report.satisfied
    case Absent => EntryFor(w, outcome) in report.missing
    case Conflicting => EntryFor(w, outcome) in report.conflicts
    case OptionallyAbsent => w.peerName in report.optionalMissing
  }

  /** The three lists whose entries name the package mention the request once in the list it
      belongs to and nowhere else, so not at all when an optional peer is missing. */
  predicate MentionedOnlyThere(report: Report, w: Request, outcome: Lookup) {
    var heading := HeadingOf(w, outcome);
    && Mentions(report.satisfied, w.requiredBy, w.peerName) == (if heading == Satisfied then 1 else 0)
    && Mentions(report.missing, w.requiredBy, w.peerName) == (if heading == Absent then 1 else 0)
    && Mentions(report.conflicts, w.requiredBy, w.peerName) == (if heading == Conflicting then 1 else 0)
  }

  function Entries(report: Report): nat {
    |report.satisfied| + |report.missing| + |report.conflicts| + |report.optionalMissing|
  }

  lemma {:induction false} EntriesAddUp(work: seq<Request>, outcomes: seq<Lookup>)
    requires |outcomes| == |work|
    ensures Entries(ReportOf(work, outcomes)) == |work|
    decreases |work|
  {
    if work != [] { EntriesAddUp(work[..|work| - 1], outcomes[..|work| - 1]); }
  }

  lemma EntryIsUnder(work: seq<Request>, outcomes: seq<Lookup>, i: nat)
    requires |outcomes| == |work| && i < |work|
    ensures EntryFor(work[i], outcomes[i]) in EntriesUnder(work, outcomes, HeadingOf(work[i], outcomes[i]))
    ensures work[i].peerName in NamesUnder(work, outcomes, HeadingOf(work[i], outcomes[i]))
  {
    var heading := HeadingOf(work[i], outcomes[i]);
    var at := Under(work, outcomes, heading);
    var k :| 0 <= k < |at| && at[k] == i;
    assert EntriesUnder(work, outcomes, heading)[k] == EntryFor(work[i], outcomes[i]);
    assert NamesUnder(work, outcomes, heading)[k] == work[i].peerName;
  }

  /** Every declared peer is in exactly one of the four lists, the one its outcome belongs to;
      each list is exactly the requests that belong there. */
  lemma EveryPeerReportedOnce(work: seq<Request>, outcomes: seq<Lookup>)
    requires |outcomes| == |work|
    ensures var report := ReportOf(work, outcomes);
            && report.satisfied == EntriesUnder(work, outcomes, Satisfied)
            && report.missing == EntriesUnder(work, outcomes, Absent)
            && report.conflicts == EntriesUnder(work, outcomes, Conflicting)
            && report.optionalMissing == NamesUnder(work, outcomes, OptionallyAbsent)
            && Entries(report) == |work|
            && (forall i :: 0 <= i < |work| ==> Reported(report, work[i], outcomes[i]))
            && (NoDuplicates(work) ==>
                  forall i :: 0 <= i < |work| ==> MentionedOnlyThere(report, work[i], outcomes[i]))
  {
    hide EntriesUnder, NamesUnder, ReportOf, NoDuplicates, Mentions, EntryFor;
    var report := ReportOf(work, outcomes);
    ReportIsExact(work, outcomes);
    EntriesAddUp(work, outcomes);
    forall i | 0 <= i < |work| ensures Reported(report, work[i], outcomes[i]) { EntryIsUnder(work, outcomes, i); }
    if NoDuplicates(work) {
      forall i | 0 <= i < |work| ensures MentionedOnlyThere(report, work[i], outcomes[i]) {
        MentionsOfRequest(work, outcomes, Satisfied, i);
        MentionsOfRequest(work, outcomes, Absent, i);
        MentionsOfRequest(work, outcomes, Conflicting, i);
      }
    }
  }

  // ---------- the report in terms of the graph ----------

  /** The search for this peer of this package came to this outcome. */
  ghost predicate Came(work: seq<Request>, outcomes: seq<Lookup>, key: string, peer: string, outcome: Lookup)
    requires |outcomes| == |work|
  {
    exists i :: 0 <= i < |work| && work[i].requiredBy == key && work[i].peerName == peer && outcomes[i] == outcome
  }

  lemma CameSnoc(work: seq<Request>, outcomes: seq<Lookup>, key: string, peer: string, outcome: Lookup)
    requires |outcomes| == |work| > 0
    ensures var n := |work| - 1;
            Came(work, outcomes, key, peer, outcome) <==>
            || Came(work[..n], outcomes[..n], key, peer, outcome)
            || (work[n].requiredBy == key && work[n].peerName == peer && outcomes[n] == outcome)
  {
    var n := |work| - 1;
    if i :| 0 <= i < n && work[..n][i].requiredBy == key && work[..n][i].peerName == peer
            && outcomes[..n][i] == outcome
    {
      assert work[i].requiredBy == key && work[i].peerName == peer && outcomes[i] == outcome;
    }
    if i :| 0 <= i < n && work[i].requiredBy == key && work[i].peerName == peer && outcomes[i] == outcome {
      assert work[..n][i].requiredBy == key && work[..n][i].peerName == peer && outcomes[..n][i] == outcome;
    }
  }

  /** The three lists of entries, each in terms of the outcomes and of the graph: a missing peer
      is listed with the range its package declares, unless the package calls it optional. */
  lemma {:induction false} EntriesExactly(nodes: Nodes, work: seq<Request>, outcomes: seq<Lookup>, key: string,
                                          peer: string)
    requires |outcomes| == |work| && forall i :: 0 <= i < |work| ==> RequestOk(nodes, work[i])
    ensures var report := ReportOf(work, outcomes);
            && (forall found :: SatisfiedPeer(key, peer, found) in report.satisfied <==>
                  Came(work, outcomes, key, peer, Found(found)))
            && (forall range :: MissingPeer(key, peer, range) in report.missing <==>
                  && Came(work, outcomes, key, peer, Missing) && Declares(nodes, key, peer)
                  && peer !in nodes[key].optionalPeers && range == nodes[key].peerDependencies[peer])
            && (forall range, v :: ConflictPeer(key, peer, range, v) in report.conflicts <==>
                  && Came(work, outcomes, key, peer, Conflict(v)) && Declares(nodes, key, peer)
                  && range == nodes[key].peerDependencies[peer])
    decreases |work|
  {
    hide Came;
    if work == [] {
      NothingCame(outcomes, key, peer);
    } else {
      var n := |work| - 1;
      assert forall i :: 0 <= i < n ==> work[..n][i] == work[i];
      EntriesExactly(nodes, work[..n], outcomes[..n], key, peer);
      forall outcome
        ensures Came(work, outcomes, key, peer, outcome) <==>
                || Came(work[..n], outcomes[..n], key, peer, outcome)
                || (work[n].requiredBy == key && work[n].peerName == peer && outcomes[n] == outcome)
      {
        CameSnoc(work, outcomes, key, peer, outcome);
      }
      assert RequestOk(nodes, work[n]);
    }
  }

  lemma NothingCame(outcomes: seq<Lookup>, key: string, peer: string)
    requires outcomes == []
    ensures forall outcome :: !Came([], outcomes, key, peer, outcome)
  {
  }

  /** The names of the optional peers that are missing are those some package declares optional
      and misses. */
  lemma {:induction false} OptionalNamesExactly(nodes: Nodes, work: seq<Request>, outcomes: seq<Lookup>, peer: string)
    requires |outcomes| == |work| && forall i :: 0 <= i < |work| ==> RequestOk(nodes, work[i])
    ensures peer in ReportOf(work, outcomes).optionalMissing <==>
            exists key :: Came(work, outcomes, key, peer, Missing) && key in nodes && peer in nodes[key].optionalPeers
    decreases |work|
  {
    hide Came;
    if work == [] {
      forall key ensures !Came(work, outcomes, key, peer, Missing) { NothingCame(outcomes, key, peer); }
    } else {
      var n := |work| - 1;
      assert forall i :: 0 <= i < n ==> work[..n][i] == work[i];
      OptionalNamesExactly(nodes, work[..n], outcomes[..n], peer);
      forall key
        ensures Came(work, outcomes, key, peer, Missing) <==>
                || Came(work[..n], outcomes[..n], key, peer, Missing)
                || (work[n].requiredBy == key && work[n].peerName == peer && outcomes[n] == Missing)
      {
        CameSnoc(work, outcomes, key, peer, Missing);
      }
      assert RequestOk(nodes, work[n]);
      if outcomes[n] == Missing && work[n].peerName == peer {
        assert Came(work, outcomes, work[n].requiredBy, peer, Missing);
      }
    }
  }

  /** The graphs differ in resolved peers only. */
  predicate SameButPeers(a: Nodes, b: Nodes) {
    a.Keys == b.Keys && forall k :: k in a ==> b[k] == a[k].(resolvedPeers := b[k].resolvedPeers)
  }

  function OutcomeAt(work: seq<Request>, outcomes: seq<Lookup>, key: string, peer: string): Option<Lookup>
    requires |outcomes| == |work|
    decreases |work|
  {
    if work == [] then None
    else
      var n := |work| - 1;
      if work[n].requiredBy == key && work[n].peerName == peer then Some(outcomes[n])
      else OutcomeAt(work[..n], outcomes[..n], key, peer)
  }

  lemma {:induction false} OutcomeAtIndex(work: seq<Request>, outcomes: seq<Lookup>, i: nat)
    requires |outcomes| == |work| && i < |work| && NoDuplicates(work)
    ensures OutcomeAt(work, outcomes, work[i].requiredBy, work[i].peerName) == Some(outcomes[i])
    decreases |work|
  {
    var n := |work| - 1;
    if i < n { OutcomeAtIndex(work[..n], outcomes[..n], i); }
  }

  /** The peer's entry after the pass: the key found, or what was there before. */
  predicate PeerAfter(before: Node, after: Node, peer: string, outcome: Option<Lookup>) {
    if outcome.Some? && outcome.value.Found? then
      peer in after.resolvedPeers && after.resolvedPeers[peer] == outcome.value.key
    else
      && (peer in after.resolvedPeers <==> peer in before.resolvedPeers)
      && (peer in before.resolvedPeers ==> after.resolvedPeers[peer] == before.resolvedPeers[peer])
  }

  /** A resolved peer is written exactly for the satisfied requests; all else stays. */
  lemma {:induction false} ResolvedExactly(nodes: Nodes, work: seq<Request>, outcomes: seq<Lookup>)
    requires |outcomes| == |work| && NoDuplicates(work)
    requires forall i :: 0 <= i < |work| ==> work[i].requiredBy in nodes
    ensures var after := Resolved(nodes, work, outcomes);
            && SameButPeers(nodes, after)
            && forall key, peer :: key in nodes ==>
                 PeerAfter(nodes[key], after[key], peer, OutcomeAt(work, outcomes, key, peer))
    decreases |work|
  {
    if work != [] {
      var n := |work| - 1;
      ResolvedExactly(nodes, work[..n], outcomes[..n]);
      var mid, after := Resolved(nodes, work[..n], outcomes[..n]), Resolved(nodes, work, outcomes);
      assert after == Resolve(mid, work[n], outcomes[n]);
      forall key, peer | key in nodes
        ensures PeerAfter(nodes[key], after[key], peer, OutcomeAt(work, outcomes, key, peer))
      {
        assert PeerAfter(nodes[key], mid[key], peer, OutcomeAt(work[..n], outcomes[..n], key, peer));
        if work[n].requiredBy == key && work[n].peerName == peer {
          FirstOutcome(work, outcomes);
        }
      }
    } else {
      assert Resolved(nodes, work, outcomes) == nodes;
    }
  }

  lemma {:induction false} NoOutcome(work: seq<Request>, outcomes: seq<Lookup>, key: string, peer: string)
    requires |outcomes| == |work| && !Requested(work, key, peer)
    ensures OutcomeAt(work, outcomes, key, peer) == None
    decreases |work|
  {
    if work != [] {
      var n := |work| - 1;
      forall i | 0 <= i < n ensures !(work[..n][i].requiredBy == key && work[..n][i].peerName == peer) {
        assert work[i] == work[..n][i];
      }
      NoOutcome(work[..n], outcomes[..n], key, peer);
    }
  }

  /** The last request was not there before. */
  lemma FirstOutcome(work: seq<Request>, outcomes: seq<Lookup>)
    requires |outcomes| == |work| > 0 && NoDuplicates(work)
    ensures var n := |work| - 1;
            OutcomeAt(work[..n], outcomes[..n], work[n].requiredBy, work[n].peerName) == None
  {
    var n := |work| - 1;
    NoOutcome(work[..n], outcomes[..n], work[n].requiredBy, work[n].peerName);
  }

  // ---------- resolved peers do not influence the searches ----------

  lemma {:induction false} SameHeights(a: Nodes, b: Nodes, roots: seq<string>, pkg: string, x: string, n: nat)
    requires SameButPeers(a, b) && AtHeight(a, roots, pkg, x, n)
    ensures AtHeight(b, roots, pkg, x, n)
    decreases n
  {
    if n > |roots| {
      var y :| y in a && AtHeight(a, roots, pkg, y, n - Width(roots)) && DependsOn(a, x, y);
      SameHeights(a, b, roots, pkg, y, n - Width(roots));
      assert DependsOn(b, x, y);
    }
  }

  lemma SamePeersBackwards(a: Nodes, b: Nodes)
    requires SameButPeers(a, b)
    ensures SameButPeers(b, a)
  {
  }

  lemma SameHeightsBoth(a: Nodes, b: Nodes, roots: seq<string>, pkg: string)
    requires SameButPeers(a, b)
    ensures forall x, n: nat :: AtHeight(a, roots, pkg, x, n) <==> AtHeight(b, roots, pkg, x, n)
  {
    hide AtHeight, SameButPeers;
    SamePeersBackwards(a, b);
    forall x, n: nat ensures AtHeight(a, roots, pkg, x, n) <==> AtHeight(b, roots, pkg, x, n) {
      if AtHeight(a, roots, pkg, x, n) { SameHeights(a, b, roots, pkg, x, n); }
      if AtHeight(b, roots, pkg, x, n) { SameHeights(b, a, roots, pkg, x, n); }
    }
  }

  lemma SameListers(a: Nodes, b: Nodes, roots: seq<string>, pkg: string, peer: string)
    requires SameButPeers(a, b)
    ensures forall x :: NearestLister(a, roots, pkg, peer, x) ==> NearestLister(b, roots, pkg, peer, x)
    ensures NoLister(a, roots, pkg, peer) ==> NoLister(b, roots, pkg, peer)
  {
    hide AtHeight;
    SameHeightsBoth(a, b, roots, pkg);
    forall x ensures Lists(a, x, peer) <==> Lists(b, x, peer) { }
    hide Lists, SameButPeers;
    forall x | NearestLister(a, roots, pkg, peer, x) ensures NearestLister(b, roots, pkg, peer, x) {
      var n: nat :| AtHeight(a, roots, pkg, x, n) &&
        forall y, m: nat :: AtHeight(a, roots, pkg, y, m) && Lists(a, y, peer) ==> n <= m;
      assert AtHeight(b, roots, pkg, x, n);
    }
  }

  /** Answers given while the pass is under way are answers about the graph it began with. */
  lemma SameAnswers(a: Nodes, b: Nodes, roots: seq<string>, satisfies: Satisfies, pkg: string, peer: string,
                    range: string, r: Lookup)
    requires SameButPeers(a, b) && Answers(a, roots, satisfies, pkg, peer, range, r)
    ensures Answers(b, roots, satisfies, pkg, peer, range, r)
  {
    hide NoLister, VersionOfKey, AtHeight;
    SameListers(a, b, roots, pkg, peer);
    forall i | 0 <= i < |roots| ensures RootCarries(a, roots[i], peer) <==> RootCarries(b, roots[i], peer) { }
    if x :| NearestLister(a, roots, pkg, peer, x) && r == AnswerAt(a, satisfies, x, peer, range) {
      assert NearestLister(b, roots, pkg, peer, x);
    }
  }

  // ---------- the pass ----------

  /** One request for every declared peer, in whatever order the maps are walked. */
  method CollectWork(nodes: Nodes) returns (work: seq<Request>)
    ensures IsWork(nodes, work)
  {
    work := [];
    var left := nodes.Keys;
    while left != {}
      invariant left <= nodes.Keys
      invariant NoDuplicates(work) && forall i :: 0 <= i < |work| ==> RequestOk(nodes, work[i])
      invariant forall key, peer :: Declares(nodes, key, peer) ==> (Requested(work, key, peer) <==> key !in left)
      decreases |left|
    {
      var key :| key in left;
      work := CollectPeers(nodes, key, work);
      left := left - {key};
    }
  }

  method CollectPeers(nodes: Nodes, key: string, before: seq<Request>) returns (work: seq<Request>)
    requires key in nodes && NoDuplicates(before)
    requires forall i :: 0 <= i < |before| ==> RequestOk(nodes, before[i])
    requires forall peer :: Declares(nodes, key, peer) ==> !Requested(before, key, peer)
    ensures NoDuplicates(work) && forall i :: 0 <= i < |work| ==> RequestOk(nodes, work[i])
    ensures forall k, peer :: Requested(work, k, peer) <==>
              Requested(before, k, peer) || (k == key && Declares(nodes, key, peer))
  {
    work := before;
    var peers := nodes[key].peerDependencies.Keys;
    while peers != {}
      invariant peers <= nodes[key].peerDependencies.Keys
      invariant NoDuplicates(work) && forall i :: 0 <= i < |work| ==> RequestOk(nodes, work[i])
      invariant forall k, peer :: Requested(work, k, peer) <==>
                  Requested(before, k, peer) || (k == key && Declares(nodes, key, peer) && peer !in peers)
      decreases |peers|
    {
      var peer :| peer in peers;
      var request := RequestFor(nodes, key, peer);
      RequestedMore(work, request);
      work := work + [request];
      peers := peers - {peer};
    }
  }

  lemma RequestedMore(work: seq<Request>, r: Request)
    ensures forall k, peer :: Requested(work + [r], k, peer) <==>
              Requested(work, k, peer) || (k == r.requiredBy && peer == r.peerName)
    ensures NoDuplicates(work) && !Requested(work, r.requiredBy, r.peerName) ==> NoDuplicates(work + [r])
  {
    var more := work + [r];
    forall k, peer
      ensures Requested(more, k, peer) <==> Requested(work, k, peer) || (k == r.requiredBy && peer == r.peerName)
    {
      if Requested(work, k, peer) {
        var i :| 0 <= i < |work| && work[i].requiredBy == k && work[i].peerName == peer;
        assert more[i] == work[i];
      }
      assert more[|work|] == r;
      if Requested(more, k, peer) {
        var i :| 0 <= i < |more| && more[i].requiredBy == k && more[i].peerName == peer;
        if i < |work| { assert work[i] == more[i]; }
      }
    }
  }

  class DepGraph {
    var nodes: Nodes
    var roots: seq<string>

    constructor (nodes: Nodes, roots: seq<string>)
      ensures this.nodes == nodes && this.roots == roots
    {
      this.nodes, this.roots := nodes, roots;
    }

    /** Writes one outcome into the report, and into the graph when the peer was found. */
    method Record(w: Request, outcome: Lookup, before: Report) returns (report: Report)
      modifies this`nodes
      ensures report == AddOutcome(before, w, outcome) && nodes == Resolve(old(nodes), w, outcome)
    {
      report := before;
      match outcome
      case Found(key) =>
        if w.requiredBy in nodes {
          var node := nodes[w.requiredBy];
          nodes := nodes[w.requiredBy := node.(resolvedPeers := node.resolvedPeers[w.peerName := key])];
        }
        report := report.(satisfied := report.satisfied + [SatisfiedPeer(w.requiredBy, w.peerName, key)]);
      case Missing =>
        if w.isOptional {
          report := report.(optionalMissing := report.optionalMissing + [w.peerName]);
        } else {
          report := report.(missing := report.missing + [MissingPeer(w.requiredBy, w.peerName, w.range)]);
        }
      case Conflict(v) =>
        report := report.(conflicts := report.conflicts + [ConflictPeer(w.requiredBy, w.peerName, w.range, v)]);
    }

    /** Searches for every declared peer once. Each answer is one the graph at the start
        allows; the report and the resolved peers are what the answers make them. */
    method ResolvePeers(satisfies: Satisfies)
      returns (report: Report, ghost work: seq<Request>, ghost outcomes: seq<Lookup>)
      modifies this`nodes
      ensures IsWork(old(nodes), work) && |outcomes| == |work|
      ensures forall i :: 0 <= i < |work| ==>
                Answers(old(nodes), roots, satisfies, work[i].requiredBy, work[i].peerName, work[i].range, outcomes[i])
      ensures report == ReportOf(work, outcomes)
      ensures nodes == Resolved(old(nodes), work, outcomes)
    {
      hide Answers, IsParentMap, AtHeight, NoDuplicates, RequestOk, Requested, Declares, SameButPeers, AddOutcome,
           Resolve;
      report := EMPTY_REPORT;
      var parents := BuildParentMap(nodes);
      var pending := CollectWork(nodes);
      work, outcomes := pending, [];
      ghost var start := nodes;
      var i := 0;
      SameAsItself(start);
      while i < |pending|
        invariant 0 <= i <= |pending| && |outcomes| == i
        invariant SameButPeers(nodes, start)
        invariant forall k :: 0 <= k < i ==>
                    Answers(start, roots, satisfies, work[k].requiredBy, work[k].peerName, work[k].range, outcomes[k])
        invariant report == ReportOf(work[..i], outcomes)
        invariant nodes == Resolved(start, work[..i], outcomes)
      {
        var w := pending[i];
        SameParents(start, nodes, parents);
        var outcome := FindPeerInContext(nodes, roots, parents, satisfies, w.requiredBy, w.peerName, w.range);
        SameAnswers(nodes, start, roots, satisfies, w.requiredBy, w.peerName, w.range, outcome);
        assert work[..i + 1][..i] == work[..i] && (outcomes + [outcome])[..i] == outcomes;
        outcomes := outcomes + [outcome];
        StaysSame(nodes, start, w, outcome);
        report := Record(w, outcome, report);
        i := i + 1;
      }
      assert work[..i] == work;
    }
  }

  lemma SameAsItself(nodes: Nodes)
    ensures SameButPeers(nodes, nodes)
  {
  }

  lemma SameParents(a: Nodes, b: Nodes, parents: ParentMap)
    requires SameButPeers(b, a) && IsParentMap(a, parents)
    ensures IsParentMap(b, parents)
  {
    forall p, c ensures DependsOn(a, p, c) <==> DependsOn(b, p, c) { }
  }

  lemma StaysSame(nodes: Nodes, start: Nodes, w: Request, outcome: Lookup)
    requires SameButPeers(nodes, start)
    ensures SameButPeers(Resolve(nodes, w, outcome), start)
  {
    var after := Resolve(nodes, w, outcome);
    forall k | k in after ensures start[k] == after[k].(resolvedPeers := start[k].resolvedPeers) {
      assert start[k] == nodes[k].(resolvedPeers := start[k].resolvedPeers);
    }
  }

  // ---------- what the pass guarantees ----------

  /** For every declared peer there is one outcome that the graph allows, reported in exactly
      one list, and written to the graph exactly when it is satisfied. */
  lemma EveryDeclaredPeerIsSettled(nodes: Nodes, roots: seq<string>, satisfies: Satisfies, work: seq<Request>,
                                   outcomes: seq<Lookup>, key: string, peer: string)
    requires IsWork(nodes, work) && |outcomes| == |work| && Declares(nodes, key, peer)
    requires forall i :: 0 <= i < |work| ==>
               Answers(nodes, roots, satisfies, work[i].requiredBy, work[i].peerName, work[i].range, outcomes[i])
    ensures exists outcome ::
              && Answers(nodes, roots, satisfies, key, peer, nodes[key].peerDependencies[peer], outcome)
              && Reported(ReportOf(work, outcomes), RequestFor(nodes, key, peer), outcome)
              && MentionedOnlyThere(ReportOf(work, outcomes), RequestFor(nodes, key, peer), outcome)
              && key in Resolved(nodes, work, outcomes)
              && PeerAfter(nodes[key], Resolved(nodes, work, outcomes)[key], peer, Some(outcome))
    ensures Entries(ReportOf(work, outcomes)) == |work|
  {
    hide Answers, Reported, MentionedOnlyThere, PeerAfter, NoDuplicates, EntriesUnder, NamesUnder, ReportOf;
    var i :| 0 <= i < |work| && work[i].requiredBy == key && work[i].peerName == peer;
    assert RequestOk(nodes, work[i]);
    assert forall j :: 0 <= j < |work| ==> RequestOk(nodes, work[j]);
    EveryPeerReportedOnce(work, outcomes);
    ResolvedExactly(nodes, work, outcomes);
    OutcomeAtIndex(work, outcomes, i);
    assert Reported(ReportOf(work, outcomes), work[i], outcomes[i]);
    assert MentionedOnlyThere(ReportOf(work, outcomes), work[i], outcomes[i]);
  }

  /** Whatever order the hash maps give, the same peers are missing. */
  lemma MissingDoesNotDependOnOrder(nodes: Nodes, roots: seq<string>, satisfies: Satisfies, pkg: string, peer: string,
                                    range: string, first: Lookup, second: Lookup)
    requires Answers(nodes, roots, satisfies, pkg, peer, range, first)
    requires Answers(nodes, roots, satisfies, pkg, peer, range, second)
    ensures first == Missing <==> second == Missing
  {
    hide Answers, NoLister;
    MissingExactly(nodes, roots, satisfies, pkg, peer, range, first);
    MissingExactly(nodes, roots, satisfies, pkg, peer, range, second);
  }
}
