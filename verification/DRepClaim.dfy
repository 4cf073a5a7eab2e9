/** Claiming a DRep profile for a stake key: one job at a time, the registration in a transaction. */
module DRepClaim {
  import opened Basics

  /** A row of the signature table. Signatures left by a plain login are linked to no profile. */
  datatype Signature = Signature(
    stakeKey: string,
    signatureKey: string,
    signature: string,
    drepId: Option<nat>,
    voterId: Option<string>,
    drepBech32: Option<string>,
    kind: Option<string>,
    lastSignedIn: Option<int>)

  /** The drep (profile) and signature tables, and the sequences their ids come from. */
  datatype Db = Db(profiles: set<nat>, signatures: map<nat, Signature>, nextDrep: nat, nextSig: nat)

  /** What the lookup of an active on-chain DRep for the stake key finds. */
  datatype Registered = Registered(view: string, retired: bool)

  datatype Fault = NoFault | InsertFails | FindFails | WriteFails | CommitFails

  /** A claim job, with how its calls turn out. */
  datatype Job = Job(
    stakeKey: string,
    signatureKey: string,
    signature: string,
    registered: Option<Registered>,
    now: int,
    fault: Fault)

  datatype Response = NotRegistered | Claimed(view: Option<string>, drepId: Option<nat>)

  // ----- one job

  predicate IsLinkOf(s: Signature, stakeKey: string) {
    s.stakeKey == stakeKey && s.drepId.Some?
  }

  predicate Linked(db: Db, stakeKey: string) {
    exists id :: id in db.signatures && IsLinkOf(db.signatures[id], stakeKey)
  }

  predicate SignedBy(s: Signature, job: Job) {
    s.stakeKey == job.stakeKey && s.signatureKey == job.signatureKey
  }

  /** What getRawOne may return for the job's keys: any matching row, or none if there is none. */
  ghost predicate MayFind(db: Db, job: Job, found: Option<nat>) {
    match found
    case None => forall id :: id in db.signatures ==> !SignedBy(db.signatures[id], job)
    case Some(id) => id in db.signatures && SignedBy(db.signatures[id], job)
  }

  predicate Registers(db: Db, job: Job) {
    job.registered.Some? && !job.registered.value.retired && !Linked(db, job.stakeKey)
  }

  function LinkedTo(s: Signature, profile: nat, view: string): Signature {
    s.(drepId := Some(profile), voterId := Some(view), drepBech32 := Some(view))
  }

  function NewSignature(job: Job, profile: nat, view: string): Signature {
    Signature(job.stakeKey, job.signatureKey, job.signature,
              Some(profile), Some(view), Some(view), Some("drep"), Some(job.now))
  }

  /** The transaction: the ids taken from the sequences stay taken when it is rolled back. */
  function Register(db: Db, job: Job, view: string, found: Option<nat>): Db
    requires found.Some? ==> found.value in db.signatures
  {
    var profile := db.nextDrep;
    var taken := db.(nextDrep := profile + 1);
    if job.fault.InsertFails? || job.fault.FindFails? then taken
    else if found.Some? then
      var s := db.signatures[found.value];
      if job.fault.CommitFails? || (job.fault.WriteFails? && s.drepId.None?) then taken
      else
        taken.(profiles := db.profiles + {profile},
               signatures :=
                 if s.drepId.None? then db.signatures[found.value := LinkedTo(s, profile, view)] else db.signatures)
    else
      var both := taken.(nextSig := db.nextSig + 1);
      if !job.fault.NoFault? then both
      else
        both.(profiles := db.profiles + {profile},
              signatures := db.signatures[db.nextSig := NewSignature(job, profile, view)])
  }

  ghost predicate Step(before: Db, job: Job, after: Db) {
    if Registers(before, job) then
      exists found :: MayFind(before, job, found) && after == Register(before, job, job.registered.value.view, found)
    else after == before
  }

  // ----- the worker

  class DrepClaimWorker {
    var profiles: set<nat>
    var signatures: map<nat, Signature>
    var nextDrep: nat
    var nextSig: nat

    function State(): Db
      reads this
    {
      Db(profiles, signatures, nextDrep, nextSig)
    }

    constructor (db: Db)
      ensures State() == db
    {
      profiles, signatures, nextDrep, nextSig := db.profiles, db.signatures, db.nextDrep, db.nextSig;
    }

    method Process(job: Job) returns (response: Response)
      modifies this
      ensures Step(old(State()), job, State())
      ensures response.NotRegistered? <==> job.registered.None?
      ensures response.Claimed? && response.drepId.Some? ==> profiles == old(profiles) + {response.drepId.value}
      ensures response.Claimed? && response.drepId.None? ==> profiles == old(profiles) && signatures == old(signatures)
      ensures response.Claimed? && (response.drepId.Some? || job.registered.value.retired) ==>
                response.view == Some(job.registered.value.view)
    {
      if job.registered.None? {
        return NotRegistered;
      }
      var view, drepId := AutoClaimDRep(job, job.registered.value);
      response := Claimed(view, drepId);
    }

    method AutoClaimDRep(job: Job, registered: Registered) returns (view: Option<string>, drepId: Option<nat>)
      requires job.registered == Some(registered)
      modifies this
      ensures Step(old(State()), job, State())
      ensures drepId.Some? ==> profiles == old(profiles) + {drepId.value}
      ensures drepId.None? ==> profiles == old(profiles) && signatures == old(signatures)
      ensures registered.retired || drepId.Some? ==> view == Some(registered.view)
      ensures !registered.retired && Linked(old(State()), job.stakeKey) ==>
                && drepId.None?
                && exists id :: id in signatures && IsLinkOf(signatures[id], job.stakeKey)
                                && view == signatures[id].drepBech32
    {
      if registered.retired {
        return Some(registered.view), None;
      }
      if id :| id in signatures && IsLinkOf(signatures[id], job.stakeKey) {
        return signatures[id].drepBech32, None;
      }
      var done, insertedDrep, insertedSig := RegisterDrep(job, registered.view);
      if done {
        return insertedSig.drepBech32, Some(insertedDrep);
      }
      return None, None;
    }

    /** `done` is false when the transaction was rolled back. */
    method RegisterDrep(job: Job, view: string) returns (done: bool, insertedDrep: nat, insertedSig: Signature)
      modifies this
      ensures exists found :: MayFind(old(State()), job, found) && State() == Register(old(State()), job, view, found)
      ensures done ==> insertedDrep == old(nextDrep) && profiles == old(profiles) + {insertedDrep}
      ensures !done ==> profiles == old(profiles) && signatures == old(signatures)
      ensures done && !Linked(old(State()), job.stakeKey) ==> insertedSig.drepBech32 == Some(view)
    {
      ghost var before := State();
      var saved := (profiles, signatures);
      insertedSig := NewSignature(job, nextDrep, view);
      done, insertedDrep := false, nextDrep;
      nextDrep := nextDrep + 1;
      if job.fault.InsertFails? {
        SomethingMayBeFound(before, job);
        return;
      }
      profiles := profiles + {insertedDrep};
      if job.fault.FindFails? {
        SomethingMayBeFound(before, job);
        profiles, signatures := saved.0, saved.1;
        return;
      }
      var existingSig: Option<nat> := None;
      if id :| id in signatures && SignedBy(signatures[id], job) {
        existingSig := Some(id);
      }
      assert MayFind(before, job, existingSig);
      var fails := job.fault.CommitFails?;
      if existingSig.Some? {
        insertedSig := signatures[existingSig.value];
        if insertedSig.drepId.None? {
          insertedSig := LinkedTo(insertedSig, insertedDrep, view);
          signatures := signatures[existingSig.value := insertedSig];
          fails := fails || job.fault.WriteFails?;
        }
      } else {
        signatures := signatures[nextSig := insertedSig];
        nextSig := nextSig + 1;
        fails := fails || job.fault.WriteFails?;
      }
      if fails {
        profiles, signatures := saved.0, saved.1;
      }
      done := !fails;
      assert State() == Register(before, job, view, existingSig);
    }
  }

  lemma SomethingMayBeFound(db: Db, job: Job)
    ensures exists found :: MayFind(db, job, found) && (found.Some? ==> found.value in db.signatures)
  {
    if id :| id in db.signatures && SignedBy(db.signatures[id], job) {
      assert MayFind(db, job, Some(id));
    } else {
      assert MayFind(db, job, None);
    }
  }

  // ----- what every job keeps

  /** Foreign keys hold, ids come from the sequences, and a stake key is linked to at most one profile. */
  ghost predicate Ok(db: Db) {
    && (forall p :: p in db.profiles ==> p < db.nextDrep)
    && (forall id :: id in db.signatures ==>
          id < db.nextSig && (db.signatures[id].drepId.Some? ==> db.signatures[id].drepId.value in db.profiles))
    && (forall a, b :: a in db.signatures && b in db.signatures
          && IsLinkOf(db.signatures[a], db.signatures[b].stakeKey) && db.signatures[b].drepId.Some?
          ==> db.signatures[a].drepId == db.signatures[b].drepId)
  }

  /** The signatures of a profile. */
  function SignaturesOf(db: Db, profile: nat): set<nat> {
    set id | id in db.signatures && db.signatures[id].drepId == Some(profile)
  }

  /** The signature the transaction finds is never linked: the branch for linked ones is dead. */
  lemma FoundIsUnlinked(db: Db, job: Job, found: Option<nat>)
    requires Registers(db, job) && MayFind(db, job, found)
    ensures found.Some? ==> db.signatures[found.value].drepId.None?
  {
  }

  /** What the signature of a new profile says. */
  predicate Signs(s: Signature, job: Job, profile: nat) {
    && s.stakeKey == job.stakeKey && s.signatureKey == job.signatureKey && s.drepId == Some(profile)
    && job.registered.Some? && s.voterId == s.drepBech32 == Some(job.registered.value.view)
  }

  /**
   * The row that says so: the login signature with the keys of the job, linked and otherwise as it was, or a
   * new row if there is no signature with these keys.
   */
  ghost predicate IsWritten(db: Db, job: Job, id: nat, s: Signature)
    requires job.registered.Some?
  {
    var view := job.registered.value.view;
    if id in db.signatures then
      && db.signatures[id].stakeKey == job.stakeKey && db.signatures[id].signatureKey == job.signatureKey
      && db.signatures[id].drepId == None
      && s == db.signatures[id].(drepId := Some(db.nextDrep), voterId := Some(view), drepBech32 := Some(view))
    else
      && id == db.nextSig
      && (forall k :: k in db.signatures ==>
            (db.signatures[k].stakeKey, db.signatures[k].signatureKey) != (job.stakeKey, job.signatureKey))
      && s == Signature(job.stakeKey, job.signatureKey, job.signature, Some(db.nextDrep), Some(view), Some(view),
                        Some("drep"), Some(job.now))
  }

  /** A registration that meets no fault writes one signature, for the new profile; any other changes no row. */
  lemma RegisteredOnce(db: Db, job: Job, found: Option<nat>) returns (id: nat)
    requires Ok(db) && Registers(db, job) && MayFind(db, job, found)
    ensures var after := Register(db, job, job.registered.value.view, found);
            && after.nextDrep == db.nextDrep + 1 && after.nextSig >= db.nextSig
            && if !job.fault.NoFault? then after.profiles == db.profiles && after.signatures == db.signatures
               else
                 && after.profiles == db.profiles + {db.nextDrep}
                 && id in after.signatures && id < after.nextSig
                 && Signs(after.signatures[id], job, db.nextDrep)
                 && IsWritten(db, job, id, after.signatures[id])
                 && after.signatures == db.signatures[id := after.signatures[id]]
  {
    FoundIsUnlinked(db, job, found);
    id := if found.Some? then found.value else db.nextSig;
  }

  lemma JobKeepsOk(before: Db, job: Job, after: Db)
    requires Ok(before) && Step(before, job, after)
    ensures Ok(after)
  {
    if Registers(before, job) {
      var found :| MayFind(before, job, found) && after == Register(before, job, job.registered.value.view, found);
      var id := RegisteredOnce(before, job, found);
      hide Register, MayFind;
    }
  }

  /** A job creates at most one profile; a new one has exactly one signature, the others keep theirs. */
  lemma JobSignsNewProfile(before: Db, job: Job, after: Db, p: nat)
    requires Ok(before) && Step(before, job, after)
    ensures before.profiles <= after.profiles <= before.profiles + {before.nextDrep}
    ensures p in before.profiles ==> SignaturesOf(after, p) == SignaturesOf(before, p)
    ensures p in after.profiles && p !in before.profiles ==>
              exists id :: SignaturesOf(after, p) == {id} && Signs(after.signatures[id], job, p)
  {
    if Registers(before, job) {
      var found :| MayFind(before, job, found) && after == Register(before, job, job.registered.value.view, found);
      var id := RegisteredOnce(before, job, found);
      hide Register, MayFind;
      if p in after.profiles && p !in before.profiles {
        assert SignaturesOf(before, p) == {};
        assert SignaturesOf(after, p) == {id};
      }
    }
  }

  /** Once a stake key is linked, no job for it changes anything. */
  lemma LinkedIsFinal(before: Db, job: Job, after: Db)
    requires Step(before, job, after) && Linked(before, job.stakeKey)
    ensures after == before
  {
  }

  /** Once a registration for a stake key has committed, no further job for that key changes anything. */
  lemma CommittedIsFinal(before: Db, job: Job, once: Db, again: Job, twice: Db)
    requires Ok(before) && Step(before, job, once) && once.profiles != before.profiles
    requires again.stakeKey == job.stakeKey && Step(once, again, twice)
    ensures twice == once
  {
    var found :| MayFind(before, job, found) && once == Register(before, job, job.registered.value.view, found);
    var id := RegisteredOnce(before, job, found);
    hide Register, MayFind;
    assert Linked(once, job.stakeKey);
    LinkedIsFinal(once, again, twice);
  }

  /**
   * A job that meets no fault changes nothing if and only if the stake key has no active DRep on chain, or a
   * retired one, or a signature that is linked already; otherwise it creates the profile.
   */
  lemma JobIsIdleIff(once: Db, again: Job, twice: Db)
    requires Ok(once) && Step(once, again, twice) && again.fault.NoFault?
    ensures twice == once <==>
            || again.registered.None? || again.registered.value.retired
            || exists id :: id in once.signatures && once.signatures[id].stakeKey == again.stakeKey
                            && once.signatures[id].drepId.Some?
    ensures twice != once ==>
              twice.profiles == once.profiles + {once.nextDrep} && Linked(twice, again.stakeKey)
  {
    if Registers(once, again) {
      var found :| MayFind(once, again, found) && twice == Register(once, again, again.registered.value.view, found);
      FoundIsUnlinked(once, again, found);
      var id := RegisteredOnce(once, again, found);
      hide MayFind;
      assert once.nextDrep in twice.profiles && once.nextDrep !in once.profiles;
    }
  }

  /** The same job under the same circumstances, faults included, changes no row the second time. */
  lemma RepeatChangesNothing(before: Db, job: Job, once: Db, twice: Db)
    requires Ok(before) && Step(before, job, once) && Step(once, job, twice)
    ensures twice.profiles == once.profiles && twice.signatures == once.signatures
  {
    if Registers(before, job) {
      var found :| MayFind(before, job, found) && once == Register(before, job, job.registered.value.view, found);
      var id := RegisteredOnce(before, job, found);
      JobKeepsOk(before, job, once);
      if once.profiles != before.profiles {
        CommittedIsFinal(before, job, once, job, twice);
      } else if Registers(once, job) {
        assert !job.fault.NoFault? by { FoundIsUnlinked(before, job, found); }
        var again :| MayFind(once, job, again) && twice == Register(once, job, job.registered.value.view, again);
        FoundIsUnlinked(once, job, again);
      }
    }
  }

  // ----- whole runs

  /** The states of jobs run one after another. */
  ghost predicate IsRun(states: seq<Db>, jobs: seq<Job>) {
    && |states| == |jobs| + 1
    && forall k :: 0 <= k < |jobs| ==> Step(states[k], jobs[k], states[k + 1])
  }

  /**
   * After any sequence of jobs every stake key is still linked to at most one profile, every profile
   * that was there keeps exactly its signatures, and every new one has exactly one.
   */
  lemma {:induction false} EveryNewProfileIsSigned(states: seq<Db>, jobs: seq<Job>, p: nat)
    requires IsRun(states, jobs) && Ok(states[0])
    ensures var last := states[|jobs|];
            && Ok(last) && states[0].profiles <= last.profiles
            && (p in states[0].profiles ==> SignaturesOf(last, p) == SignaturesOf(states[0], p))
            && (p in last.profiles && p !in states[0].profiles ==> |SignaturesOf(last, p)| == 1)
  {
    hide Step, Ok, SignaturesOf;
    if jobs != [] {
      var n := |jobs| - 1;
      EveryNewProfileIsSigned(states[..|jobs|], jobs[..n], p);
      assert Step(states[n], jobs[n], states[n + 1]);
      JobKeepsOk(states[n], jobs[n], states[n + 1]);
      JobSignsNewProfile(states[n], jobs[n], states[n + 1], p);
    }
  }
}
