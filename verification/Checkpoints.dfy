/** The checkpoints of the running registry: the Merkle tree over the event hashes of its own
    log, and what proofs between checkpoints say about the events. */
module Checkpoints {
  import opened Base
  import opened MerkleTree
  import opened Frontier
  import opened ConsistencySoundness
  import opened CompactRange
  import opened EventLog
  import opened Registry
  import opened RegistrySafety
  import opened RegistryRuns

  /** `event_hashes`: the leaves of the tree, in the order of the log. */
  function EventHashes(log: seq<Event>): seq<Bytes> {
    seq(|log|, i requires 0 <= i < |log| => log[i].hash)
  }

  function CheckpointRoot(h: Hash, log: seq<Event>): Digest { SubtreeRoot(h, EventHashes(log)) }

  // ---------- proofs between checkpoints ----------

  /** Between the checkpoints of any two points of any run, the proof that the later log gives
      is accepted. */
  lemma EarlierCheckpointsAreConsistent(cfg: Config, workers: nat, replicas: nat, actions: seq<Action>, i: nat)
    requires i <= |actions| && |Run(cfg, Initial(workers, replicas), actions).log| <= TOP_BIT
    ensures var earlier := Run(cfg, Initial(workers, replicas), actions[..i]).log;
            var later := Run(cfg, Initial(workers, replicas), actions).log;
            && |earlier| <= |later|
            && VerifyConsistency(cfg.h, ProofFor(cfg.h, EventHashes(later), |earlier|),
                                 CheckpointRoot(cfg.h, earlier), CheckpointRoot(cfg.h, later))
  {
    hide Run, Initial, VerifyConsistency, ProofFor, SubtreeRoot;
    LogIsAppendOnly(cfg, workers, replicas, actions, i);
    var earlier := Run(cfg, Initial(workers, replicas), actions[..i]).log;
    var later := Run(cfg, Initial(workers, replicas), actions).log;
    assert EventHashes(later)[..|earlier|] == EventHashes(earlier);
    ConsistencyComplete(cfg.h, EventHashes(later), |earlier|);
  }

  /** Every message hashed for the two logs, their two trees and the proof. */
  ghost function CheckpointMessages(h: Hash, proof: ConsistencyProof, a: seq<Event>, b: seq<Event>): set<Bytes> {
    TreeMessages(h, EventHashes(a)) + TreeMessages(h, EventHashes(b)) + ConsistencyMessages(h, proof)
    + ChainMessages(a) + ChainMessages(b)
  }

  /** The hash of the last event stands for the whole history before it. */
  lemma HashPrefixIsTextPrefix(h: Hash, M: set<Bytes>, a: seq<Event>, b: seq<Event>)
    requires Linked(h, a) && Linked(h, b) && !CollisionIn(h, M)
    requires ChainMessages(a) <= M && ChainMessages(b) <= M
    requires EventHashes(a) <= EventHashes(b)
    ensures Texts(a) <= Texts(b)
  {
    hide CollisionIn, Linked, ChainMessages;
    if a != [] {
      var n := |a| - 1;
      assert a[n].hash == EventHashes(a)[n] == EventHashes(b)[n] == b[n].hash;
      EqualEventsEqualPasts(h, M, a, b, n, n);
      assert a[..n + 1] == a && Texts(b[..n + 1]) == Texts(b)[..n + 1];
    }
  }

  /** Whatever proof a client is shown, if it is accepted between the checkpoints of two logs,
      every event of the first is an event of the second at the same place, or two of the
      messages hashed collide. */
  lemma ConsistentCheckpointsExtendHistory(h: Hash, proof: ConsistencyProof, a: seq<Event>, b: seq<Event>)
    requires Linked(h, a) && Linked(h, b)
    requires VerifyConsistency(h, proof, CheckpointRoot(h, a), CheckpointRoot(h, b))
    ensures Texts(a) <= Texts(b) || CollisionIn(h, CheckpointMessages(h, proof, a, b))
  {
    hide SubtreeRoot, TreeMessages, ConsistencyMessages, ChainMessages, CollisionIn, Linked, VerifyConsistency, Texts;
    var M := CheckpointMessages(h, proof, a, b);
    var tree := TreeMessages(h, EventHashes(a)) + TreeMessages(h, EventHashes(b)) + ConsistencyMessages(h, proof);
    if !CollisionIn(h, M) {
      ConsistencySound(h, proof, EventHashes(a), EventHashes(b));
      if CollisionIn(h, tree) { CollisionGrows(h, tree, M); }
      HashPrefixIsTextPrefix(h, M, a, b);
    }
  }

  /** The same for the logs of any two runs, of one registry or of two. */
  lemma RunsWithConsistentCheckpoints(cfg: Config, proof: ConsistencyProof, workers: nat, replicas: nat,
                                      actions: seq<Action>, otherWorkers: nat, otherReplicas: nat,
                                      others: seq<Action>)
    requires VerifyConsistency(cfg.h, proof,
                               CheckpointRoot(cfg.h, Run(cfg, Initial(workers, replicas), actions).log),
                               CheckpointRoot(cfg.h, Run(cfg, Initial(otherWorkers, otherReplicas), others).log))
    ensures var a := Run(cfg, Initial(workers, replicas), actions).log;
            var b := Run(cfg, Initial(otherWorkers, otherReplicas), others).log;
            Texts(a) <= Texts(b) || CollisionIn(cfg.h, CheckpointMessages(cfg.h, proof, a, b))
  {
    hide Run, Initial, VerifyConsistency, CheckpointRoot, Texts, CheckpointMessages, CollisionIn, Linked;
    AuditDeliveredExactlyOnce(cfg, workers, replicas, actions);
    AuditDeliveredExactlyOnce(cfg, otherWorkers, otherReplicas, others);
    ConsistentCheckpointsExtendHistory(cfg.h, proof, Run(cfg, Initial(workers, replicas), actions).log,
                                       Run(cfg, Initial(otherWorkers, otherReplicas), others).log);
  }

  // ---------- proofs of single events ----------

  lemma EveryEventIsProvable(h: Hash, log: seq<Event>, i: nat)
    requires i < |log|
    ensures VerifyInclusion(h, log[i].hash, i, |log|, AuditPath(h, EventHashes(log), i), CheckpointRoot(h, log))
  {
    hide VerifyInclusion, AuditPath, SubtreeRoot;
    InclusionComplete(h, EventHashes(log), i);
  }

  ghost function EventMessages(h: Hash, message: Bytes, i: nat, proof: seq<Bytes>, log: seq<Event>): set<Bytes> {
    TreeMessages(h, EventHashes(log)) + InclusionMessages(h, h(message), i, |log|, proof)
    + ChainMessages(log) + {message}
  }

  predicate EventAt(log: seq<Event>, i: nat, message: Bytes) {
    i < |log| && log[i].previous + log[i].json == message
  }

  /** An accepted inclusion proof for the hash of a chained message shows that this very
      message made the event at that place, or two of the messages hashed collide. */
  lemma InclusionBindsEvent(h: Hash, message: Bytes, i: nat, proof: seq<Bytes>, log: seq<Event>)
    requires Linked(h, log) && VerifyInclusion(h, h(message), i, |log|, proof, CheckpointRoot(h, log))
    ensures EventAt(log, i, message) || CollisionIn(h, EventMessages(h, message, i, proof, log))
  {
    hide SubtreeRoot, TreeMessages, InclusionMessages, ChainMessages, CollisionIn, Linked, VerifyInclusion;
    var M := EventMessages(h, message, i, proof, log);
    var tree := TreeMessages(h, EventHashes(log)) + InclusionMessages(h, h(message), i, |log|, proof);
    if !CollisionIn(h, M) {
      InclusionSound(h, h(message), i, proof, EventHashes(log));
      if CollisionIn(h, tree) { CollisionGrows(h, tree, M); }
      LinkAt(h, log, i);
      NoCollision(h, M, log[i].previous + log[i].json, message);
    }
  }
}
