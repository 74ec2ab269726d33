/**
  What a descrambler delivers (tsAbstractDescrambler.cpp), over all runs of its two
  threads: which sections are accepted and picked up, which control words are published,
  and which packets are decrypted.
 */
module DescramblerDelivery {
  import opened DescramblerProtocol

  // ----- From sections to control words -----

  // The table id of the last section on a PID, as long as the PID is known, or 0xFF.
  function LastTid(states: seq<State>, steps: seq<Step>, n: nat, pid: Pid): int
    requires n <= |steps| < |states|
  {
    if n == 0 then 0xFF
    else
      match steps[n - 1]
      case NewSection(q, tid, _, _) =>
        if q == pid && pid in states[n - 1].streams then tid else LastTid(states, steps, n - 1, pid)
      case _ => LastTid(states, steps, n - 1, pid)
  }

  lemma TidStep(s: State, a: Step, s': State, pid: Pid)
    requires StepIs(s, a, s') && pid in s'.streams
    ensures pid !in s.streams ==> s'.streams[pid].lastTid == 0xFF
    ensures pid in s.streams ==>
            s'.streams[pid].lastTid == if a.NewSection? && a.pid == pid then a.tid else s.streams[pid].lastTid
  {
  }

  lemma {:induction false} TidOfHistory(states: seq<State>, steps: seq<Step>, n: nat, pid: Pid)
    requires IsRun(states, steps) && n < |states|
    ensures pid in states[n].streams ==> states[n].streams[pid].lastTid == LastTid(states, steps, n, pid)
    ensures pid !in states[n].streams ==> LastTid(states, steps, n, pid) == 0xFF
  {
    hide Next, Enabled, InStreams;
    if n > 0 {
      var s, a, s' := states[n - 1], steps[n - 1], states[n];
      assert StepIs(s, a, s');
      TidOfHistory(states, steps, n - 1, pid);
      if pid in s.streams {
        StreamsStay(s, a, s', pid);
      }
      if pid in s'.streams {
        TidStep(s, a, s', pid);
      }
    }
  }

  lemma StreamsStay(s: State, a: Step, s': State, pid: Pid)
    requires StepIs(s, a, s') && pid in s.streams
    ensures pid in s'.streams && (s.streams[pid].cwValid ==> s'.streams[pid].cwValid)
  {
  }

  // A section with another table id than the one before, which the subclass can handle.
  ghost predicate IsNewEcm(states: seq<State>, steps: seq<Step>, n: nat, pid: Pid, ecm: Ecm)
    requires n < |steps| < |states|
  {
    && steps[n].NewSection? && steps[n].pid == pid && steps[n].ecm == ecm && steps[n].check
    && pid in states[n].streams && steps[n].tid != LastTid(states, steps, n, pid)
  }

  // The number of steps of the packet thread from state n to state m.
  function PacketSteps(steps: seq<Step>, n: nat, m: nat): nat
    requires n <= m <= |steps|
  {
    if n == m then 0 else PacketSteps(steps, n, m - 1) + (if steps[m - 1].PacketStep? then 1 else 0)
  }

  // The ECM is there, to be picked up.
  predicate ToPick(s: State, pid: Pid, ecm: Ecm) {
    && pid in s.streams && s.streams[pid].accepted == Some(ecm)
    && s.streams[pid].newEcm && s.streams[pid].ecm == ecm
  }

  // Where the packet thread is, some steps after it got a new ECM.
  predicate Accepting(s: State, pid: Pid, ecm: Ecm, count: nat) {
    if count == 0 then s.p == EcmLocking(pid, ecm)
    else if count == 1 then s.p == EcmCopying(pid, ecm)
    else if count == 2 then s.p == EcmFlagging(pid, ecm) && pid in s.streams && s.streams[pid].ecm == ecm
    else if count == 3 then s.p == EcmSignalling && ToPick(s, pid, ecm)
    else s.p == EcmReleasing && ToPick(s, pid, ecm)
  }

  lemma AcceptStep(s: State, a: Step, s': State, pid: Pid, ecm: Ecm, count: nat)
    requires ThreadsInv(s) && StepIs(s, a, s') && Accepting(s, pid, ecm, count) && count <= 4
    ensures !a.PacketStep? ==> Accepting(s', pid, ecm, count)
    ensures a.PacketStep? && count < 4 ==> Accepting(s', pid, ecm, count + 1)
    ensures a.PacketStep? && count == 4 ==> s'.p.Idle? && ToPick(s', pid, ecm)
  {
    hide ScanInv, ParkInv, StopInv;
  }

  lemma NewEcmStep(s: State, a: Step, s': State)
    requires StepIs(s, a, s') && a.NewSection? && a.check && a.pid in s.streams && a.tid != s.streams[a.pid].lastTid
    ensures s'.p == EcmLocking(a.pid, a.ecm)
  {
  }

  // A new ECM is there to be picked up after three steps of the packet thread, and until
  // it releases the mutex with the fifth one.
  lemma {:induction false} NewEcmIsAccepted(states: seq<State>, steps: seq<Step>, n: nat, m: nat, pid: Pid, ecm: Ecm)
    requires IsRun(states, steps) && n < m < |states| && IsNewEcm(states, steps, n, pid, ecm)
    requires PacketSteps(steps, n + 1, m) <= 4
    ensures Accepting(states[m], pid, ecm, PacketSteps(steps, n + 1, m))
    decreases m
  {
    hide Next, Enabled, InStreams, Inv, Accepting;
    assert StepIs(states[m - 1], steps[m - 1], states[m]);
    if m == n + 1 {
      TidOfHistory(states, steps, n, pid);
      NewEcmStep(states[n], steps[n], states[m]);
      EcmIsLocking(states[m], pid, ecm);
    } else {
      NewEcmIsAccepted(states, steps, n, m - 1, pid, ecm);
      InvOnRuns(states, steps, m - 1);
      InvOfThreads(states[m - 1]);
      AcceptStep(states[m - 1], steps[m - 1], states[m], pid, ecm, PacketSteps(steps, n + 1, m - 1));
    }
  }

  lemma EcmIsLocking(s: State, pid: Pid, ecm: Ecm)
    ensures Accepting(s, pid, ecm, 0) <==> s.p == EcmLocking(pid, ecm)
  {
  }

  // What was accepted does not change while the packet thread is idle.
  lemma IdleAcceptsNothing(s: State, a: Step, s': State, pid: Pid)
    requires StepIs(s, a, s') && s.p.Idle? && pid in s.streams
    ensures pid in s'.streams && s'.streams[pid].accepted == s.streams[pid].accepted
  {
  }

  lemma {:induction false} SameAccepted(states: seq<State>, steps: seq<Step>, n: nat, m: nat, pid: Pid)
    requires IsRun(states, steps) && IdleUntil(states, n, m) && pid in states[n].streams
    ensures pid in states[m].streams && states[m].streams[pid].accepted == states[n].streams[pid].accepted
    decreases m
  {
    hide Next, Enabled, InStreams;
    if n < m {
      SameAccepted(states, steps, n, m - 1, pid);
      assert StepIs(states[m - 1], steps[m - 1], states[m]);
      IdleAcceptsNothing(states[m - 1], steps[m - 1], states[m], pid);
    }
  }

  // From the section to the ECM thread: after five steps of the packet thread, the ECM is
  // there; if then the packet thread stays idle until the ECM thread waits, which
  // `CatchesUp` bounds, the ECM was picked up.
  lemma NewEcmIsPicked(states: seq<State>, steps: seq<Step>, n: nat, m: nat, k: nat, pid: Pid, ecm: Ecm)
    requires IsRun(states, steps) && n < m < |states| && IsNewEcm(states, steps, n, pid, ecm)
    requires steps[m - 1].PacketStep? && PacketSteps(steps, n + 1, m) == 5
    ensures states[m].p.Idle? && ToPick(states[m], pid, ecm)
    ensures IdleUntil(states, m, k) && states[k].e == Parked(false) ==>
              pid in states[k].streams && states[k].streams[pid].picked == Some(ecm)
  {
    hide Next, Enabled, InStreams, Inv, Accepting;
    assert m - 1 > n;
    NewEcmIsAccepted(states, steps, n, m - 1, pid, ecm);
    InvOnRuns(states, steps, m - 1);
    InvOfThreads(states[m - 1]);
    assert StepIs(states[m - 1], steps[m - 1], states[m]);
    AcceptStep(states[m - 1], steps[m - 1], states[m], pid, ecm, 4);
    if IdleUntil(states, m, k) && states[k].e == Parked(false) {
      SameAccepted(states, steps, m, k, pid);
      InvOnRuns(states, steps, k);
      ParkedIsFree(states[k]);
      NoLostWakeUp(states, steps, k);
    }
  }

  lemma ParkedIsFree(s: State)
    requires Inv(s) && s.p.Idle? && s.e.Parked?
    ensures s.mutex == Free
  {
    hide StreamsInv, ScanInv, ParkInv;
  }

  // A section on an unknown PID or with the same table id as before changes nothing; one
  // that the subclass does not handle only changes the last table id.
  lemma OtherSectionsAcceptNothing(states: seq<State>, steps: seq<Step>, n: nat, pid: Pid)
    requires IsRun(states, steps) && n < |steps| && steps[n].NewSection?
            && !IsNewEcm(states, steps, n, steps[n].pid, steps[n].ecm)
    ensures steps[n].pid !in states[n].streams || steps[n].tid == LastTid(states, steps, n, steps[n].pid) ==>
              states[n + 1] == states[n]
    ensures states[n + 1].p.Idle? && states[n + 1].streams.Keys == states[n].streams.Keys
    ensures pid in states[n].streams ==>
              states[n + 1].streams[pid] == states[n].streams[pid].(lastTid := states[n + 1].streams[pid].lastTid)
  {
    assert StepIs(states[n], steps[n], states[n + 1]);
    TidOfHistory(states, steps, n, steps[n].pid);
  }

  // Only a new ECM of the same PID is accepted.
  lemma {:induction false} AcceptedIsNewEcm(states: seq<State>, steps: seq<Step>, n: nat) returns (k: nat)
    requires IsRun(states, steps) && n < |states|
    requires states[n].p.EcmLocking? || states[n].p.EcmCopying? || states[n].p.EcmFlagging?
    ensures k < n && IsNewEcm(states, steps, k, states[n].p.pid, states[n].p.ecm)
  {
    hide InStreams;
    assert n > 0;
    var s, a, s' := states[n - 1], steps[n - 1], states[n];
    assert StepIs(s, a, s');
    if s.p.Idle? {
      k := n - 1;
      TidOfHistory(states, steps, k, s'.p.pid);
    } else {
      EcmComesFrom(s, a, s');
      k := AcceptedIsNewEcm(states, steps, n - 1);
    }
  }

  lemma EcmComesFrom(s: State, a: Step, s': State)
    requires StepIs(s, a, s') && (s'.p.EcmLocking? || s'.p.EcmCopying? || s'.p.EcmFlagging?) && !s.p.Idle?
    ensures (s.p.EcmLocking? || s.p.EcmCopying? || s.p.EcmFlagging?) && s.p.pid == s'.p.pid && s.p.ecm == s'.p.ecm
  {
  }

  lemma OnlyNewEcmIsAccepted(states: seq<State>, steps: seq<Step>, n: nat, pid: Pid)
    requires IsRun(states, steps) && n < |steps| && pid in states[n].streams && pid in states[n + 1].streams
    ensures states[n + 1].streams[pid].accepted != states[n].streams[pid].accepted ==>
              exists k, ecm :: 0 <= k < n && states[n + 1].streams[pid].accepted == Some(ecm)
                               && IsNewEcm(states, steps, k, pid, ecm)
  {
    var s, a, s' := states[n], steps[n], states[n + 1];
    assert StepIs(s, a, s');
    if s'.streams[pid].accepted != s.streams[pid].accepted {
      AcceptingStep(s, a, s', pid);
      var k := AcceptedIsNewEcm(states, steps, n);
    }
  }

  lemma AcceptingStep(s: State, a: Step, s': State, pid: Pid)
    requires StepIs(s, a, s') && pid in s.streams && pid in s'.streams
    requires s'.streams[pid].accepted != s.streams[pid].accepted
    ensures s.p.EcmFlagging? && s.p.pid == pid && s'.streams[pid].accepted == Some(s.p.ecm)
  {
  }

  // The ECM that is deciphered is the one that was picked up last.
  predicate DecipheringPicked(s: State) {
    s.e.Deciphering? ==> s.e.pid in s.streams && s.streams[s.e.pid].picked == Some(s.e.ecm)
  }

  lemma DecipheringStep(s: State, a: Step, s': State)
    requires StepIs(s, a, s') && DecipheringPicked(s)
    ensures DecipheringPicked(s')
  {
  }

  lemma {:induction false} DeciphersPicked(states: seq<State>, steps: seq<Step>, n: nat)
    requires IsRun(states, steps) && n < |states|
    ensures DecipheringPicked(states[n])
  {
    hide Next, Enabled, InStreams, DecipheringPicked;
    if n == 0 {
      NothingDeciphering(states[0]);
    } else {
      DeciphersPicked(states, steps, n - 1);
      assert StepIs(states[n - 1], steps[n - 1], states[n]);
      DecipheringStep(states[n - 1], steps[n - 1], states[n]);
    }
  }

  lemma NothingDeciphering(s: State)
    requires Init(s)
    ensures DecipheringPicked(s)
  {
  }

  // The control words of an ECM are being published.
  predicate PublishingWords(s: State, pid: Pid, words: Words) {
    || s.e == Relocking(pid, Some(words))
    || (Publishing(s.e) && s.e.pid == pid && s.e.words == words)
  }

  lemma PublishingStep(s: State, a: Step, s': State, pid: Pid, words: Words)
    requires Inv(s) && Inv(s') && StepIs(s, a, s') && PublishingWords(s, pid, words)
    ensures PublishingWords(s', pid, words) || (s'.e == Deciphered(pid) && Published(s', pid, words))
  {
    hide StreamsInv, ScanInv, ParkInv, StopInv;
    if pid in s.streams && pid in s'.streams {
      assert WordsInv(s.streams[pid], pid, s.e) by { WordsOfStream(s, pid); }
      assert WordsInv(s'.streams[pid], pid, s'.e) by { WordsOfStream(s', pid); }
    }
  }

  lemma WordsOfStream(s: State, pid: Pid)
    requires StreamsInv(s) && pid in s.streams
    ensures WordsInv(s.streams[pid], pid, s.e)
  {
    assert StreamInv(s.streams[pid], pid, s.e, s.p);
  }

  predicate Published(s: State, pid: Pid, words: Words) {
    && pid in s.streams && s.streams[pid].deciphered == Some(words) && s.streams[pid].cwValid
    && s.streams[pid].even.cw == words.even && s.streams[pid].odd.cw == words.odd
  }

  // When an ECM is successfully deciphered, its control words are those of the stream as
  // soon as the ECM thread is done with it.
  lemma {:induction false} DecipheredIsPublished(states: seq<State>, steps: seq<Step>, n: nat, m: nat, pid: Pid,
          words: Words)
    requires IsRun(states, steps) && n < m < |states|
    requires states[n].e == Deciphering(pid, words.ecm) && steps[n] == DecipherStep(Some((words.even, words.odd)))
    requires forall k :: n < k < m ==> !states[k].e.Deciphered?
    ensures PublishingWords(states[m], pid, words)
            || (states[m].e == Deciphered(pid) && Published(states[m], pid, words))
    decreases m
  {
    hide Enabled, InStreams, Inv, Published, NextOfEcmThread, NextOfPacketThread;
    assert StepIs(states[m - 1], steps[m - 1], states[m]);
    if m > n + 1 {
      DecipheredIsPublished(states, steps, n, m - 1, pid, words);
      InvOnRuns(states, steps, m - 1);
      InvOnRuns(states, steps, m);
      hide Next, PublishingWords;
      PublishingStep(states[m - 1], steps[m - 1], states[m], pid, words);
    }
  }

  // ----- From packets to decryption -----

  predicate HasValid(s: State, pids: seq<Pid>) {
    exists i :: 0 <= i < |pids| && pids[i] in s.streams && s.streams[pids[i]].cwValid
  }

  // A packet is on its way to decryption, with an ECM stream among some PID's.
  predicate OnItsWay(s: State, pids: seq<Pid>, parity: Parity) {
    || (s.p.Searching? && s.p.parity == parity && HasValid(s, s.p.pids) && forall pid :: pid in s.p.pids ==>
        pid in pids)
    || ((s.p.Checking? || UsesKey(s.p)) && s.p.parity == parity && s.p.pid in pids)
  }

  lemma OnItsWayStep(s: State, a: Step, s': State, pids: seq<Pid>, parity: Parity)
    requires StepIs(s, a, s') && OnItsWay(s, pids, parity)
    ensures OnItsWay(s', pids, parity) || (s.p.Decrypting? && s'.p.Idle?)
  {
    hide HasValid, NextOfEcmThread;
    if s.p.Searching? {
      SearchGoesOn(s, a, s');
    } else if a.EcmStep? {
      EcmThreadOnly(s);
    }
  }

  lemma SearchGoesOn(s: State, a: Step, s': State)
    requires StepIs(s, a, s') && s.p.Searching? && HasValid(s, s.p.pids)
    ensures s'.p.Searching? || s'.p.Checking?
    ensures s'.p.parity == s.p.parity
    ensures s'.p.Searching? ==> HasValid(s', s'.p.pids) && forall pid :: pid in s'.p.pids ==> pid in s.p.pids
    ensures s'.p.Checking? ==> s'.p.pid in s.p.pids
  {
    var i :| 0 <= i < |s.p.pids| && s.p.pids[i] in s.streams && s.streams[s.p.pids[i]].cwValid;
    var pid := s.p.pids[i];
    StreamsStay(s, a, s', pid);
    if a.EcmStep? {
      EcmThreadOnly(s);
    }
    if s'.p.Searching? {
      assert exists j :: 0 <= j < |s'.p.pids| && s'.p.pids[j] == pid;
    }
  }

  // A packet whose service has a stream with valid control words is decrypted before the
  // packet thread is idle again.
  lemma PacketIsDecrypted(states: seq<State>, steps: seq<Step>, n: nat, m: nat) returns (k: nat)
    requires IsRun(states, steps) && n < m < |states| && steps[n].NewPacket? && HasValid(states[n], steps[n].pids)
    requires states[m].p.Idle? && forall i :: n < i < m ==> !states[i].p.Idle?
    ensures n < k < m && states[k].p.Decrypting? && states[k].p.parity == steps[n].parity
            && states[k].p.pid in steps[n].pids
  {
    hide Next, Enabled, InStreams, HasValid, OnItsWay;
    assert StepIs(states[n], steps[n], states[n + 1]);
    PacketStarts(states[n], steps[n], states[n + 1]);
    k := n + 1;
    while k + 1 < m && OnItsWay(states[k + 1], steps[n].pids, steps[n].parity)
      invariant n < k < m && OnItsWay(states[k], steps[n].pids, steps[n].parity)
      decreases m - k
    {
      k := k + 1;
    }
    assert StepIs(states[k], steps[k], states[k + 1]);
    OnItsWayStep(states[k], steps[k], states[k + 1], steps[n].pids, steps[n].parity);
    IdleIsNot(states[k + 1], steps[n].pids, steps[n].parity);
    DecryptingWay(states[k], steps[n].pids, steps[n].parity);
  }

  lemma PacketStarts(s: State, a: Step, s': State)
    requires StepIs(s, a, s') && a.NewPacket? && HasValid(s, a.pids)
    ensures OnItsWay(s', a.pids, a.parity) && !s'.p.Idle?
  {
  }

  lemma IdleIsNot(s: State, pids: seq<Pid>, parity: Parity)
    ensures s.p.Idle? ==> !OnItsWay(s, pids, parity)
  {
  }

  lemma DecryptingWay(s: State, pids: seq<Pid>, parity: Parity)
    requires OnItsWay(s, pids, parity) && s.p.Decrypting?
    ensures s.p.parity == parity && s.p.pid in pids
  {
    hide HasValid;
  }
}
