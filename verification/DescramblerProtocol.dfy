/**
  The protocol between the two threads of a descrambler in asynchronous mode
  (tsAbstractDescrambler.cpp): the packet thread gets ECM's, installs control words
  and decrypts packets; the ECM thread deciphers ECM's and publishes control words.
  They share ECM streams, a mutex and a condition variable. The flags cwValid and
  isNew are read without the mutex.

  Every access to shared data is one atomic step. Steps of the threads interleave in
  any order.
 */
module DescramblerProtocol {

  type Pid = nat
  type Ecm = seq<int>
  type Cw = seq<int>

  datatype Option<T> = None | Some(value: T)
  datatype Parity = Even | Odd

  // What there is for each parity. The last field is history: all control words
  // that were published, in order.
  datatype Half = Half(cw: Cw, isNew: bool, key: Option<Cw>, published: seq<Cw>)

  // An ECM and what it deciphers to.
  datatype Words = Words(ecm: Ecm, even: Cw, odd: Cw)

  // The last three fields are history: the last ECM that was accepted, the last one
  // that was picked up, and the last one that was successfully deciphered.
  datatype Stream = Stream(lastTid: int, cwValid: bool, newEcm: bool, ecm: Ecm, even: Half, odd: Half,
                           accepted: Option<Ecm>, picked: Option<Ecm>, deciphered: Option<Words>)
  {
    function Get(p: Parity): Half {
      if p.Even? then even else odd
    }
    function Set(p: Parity, h: Half): Stream {
      if p.Even? then this.(even := h) else this.(odd := h)
    }
  }

  const NO_HALF := Half([], false, None, [])
  const NO_TID := 0xFF
  const NEW_STREAM := Stream(NO_TID, false, false, [], NO_HALF, NO_HALF, None, None, None)

  datatype Owner = Free | ByEcmThread | ByPacketThread

  // Where the ECM thread is.
  datatype EcmThread =
    | Acquiring                                       // the mutex, at the beginning or back from a wait
    | Looping                                         // at the beginning of a scan of all streams
    | Scanning(next: Pid, got: bool, terminate: bool) // streams before next were scanned
    | Deciphering(pid: Pid, ecm: Ecm)                 // without the mutex
    | Relocking(pid: Pid, result: Option<Words>)
    | Marking(pid: Pid, words: Words, parity: Parity) // compare a control word, set its flag
    | Storing(pid: Pid, words: Words, parity: Parity) // store a control word
    | Validating(pid: Pid, words: Words)
    | Deciphered(pid: Pid)                            // about to look at the stop flag
    | Parked(signalled: bool)                         // waiting for the condition
    | Terminated

  // Where the packet thread is.
  datatype PacketThread =
    | Idle
    | EcmLocking(pid: Pid, ecm: Ecm)                  // an ECM was accepted
    | EcmCopying(pid: Pid, ecm: Ecm)
    | EcmFlagging(pid: Pid, ecm: Ecm)
    | EcmSignalling
    | EcmReleasing
    | Searching(pids: seq<Pid>, parity: Parity)       // an ECM stream with valid control words
    | Checking(pid: Pid, parity: Parity)              // if there is a new control word
    | KeyLocking(pid: Pid, parity: Parity, since: nat)
    | Installing(pid: Pid, parity: Parity, since: nat)
    | Clearing(pid: Pid, parity: Parity, since: nat)
    | KeyReleasing(pid: Pid, parity: Parity, since: nat)
    | Decrypting(pid: Pid, parity: Parity, since: nat)
    | StopLocking
    | StopFlagging
    | StopSignalling
    | StopReleasing
    | Joining
    | Stopped

  datatype State = State(streams: map<Pid, Stream>, mutex: Owner, stop: bool, e: EcmThread, p: PacketThread)

  // ----- Steps -----

  // The steps of the ECM thread are determined by where it is, except for what an ECM
  // deciphers to and for spurious wake-ups. The packet thread depends on what it receives.
  datatype Step =
    | EcmStep
    | DecipherStep(result: Option<(Cw, Cw)>)
    | PacketStep
    | NewStream(pid: Pid)
    | NewSection(pid: Pid, tid: int, ecm: Ecm, check: bool)
    | NewPacket(pids: seq<Pid>, parity: Parity)
    | Stop

  predicate Enabled(s: State, a: Step) {
    match a
    case EcmStep =>
      (match s.e
       case Acquiring => s.mutex == Free
       case Relocking(_, _) => s.mutex == Free
       case Deciphering(_, _) => false
       case Terminated => false
       case _ => true)
    case DecipherStep(_) => s.e.Deciphering?
    case PacketStep =>
      (match s.p
       case Idle => false
       case EcmLocking(_, _) => s.mutex == Free
       case KeyLocking(_, _, _) => s.mutex == Free
       case StopLocking => s.mutex == Free
       case Joining => s.e.Terminated?
       case Stopped => false
       case _ => true)
    case _ => s.p.Idle?
  }

  function WordOf(words: Words, p: Parity): Cw {
    if p.Even? then words.even else words.odd
  }

  // The ECM thread in the middle of a scan.
  function ScanStep(s: State): State
    requires s.e.Scanning?
  {
    var e := s.e;
    if !e.terminate && e.next in s.streams && s.streams[e.next].newEcm then
      // Copy the ECM out of the protected area, release the mutex.
      var t := s.streams[e.next];
      s.(streams := s.streams[e.next := t.(newEcm := false, picked := Some(t.ecm))],
         mutex := Free, e := Deciphering(e.next, t.ecm))
    else if !e.terminate && exists pid :: pid in s.streams && pid >= e.next then
      s.(e := e.(next := e.next + 1))
    else if e.terminate then s.(mutex := Free, e := Terminated)
    else if e.got then s.(e := Looping)
    else s.(mutex := Free, e := Parked(false))
  }

  // The ECM thread publishes a control word if it changes.
  function MarkStep(s: State): State
    requires s.e.Marking? && s.e.pid in s.streams
  {
    var e, t := s.e, s.streams[s.e.pid];
    var h := t.Get(e.parity);
    if !t.cwValid || h.cw != WordOf(e.words, e.parity) then
      s.(streams := s.streams[e.pid := t.Set(e.parity, h.(isNew := true))], e := Storing(e.pid, e.words, e.parity))
    else s.(e := AfterWord(e))
  }

  function AfterWord(e: EcmThread): EcmThread
    requires e.Marking? || e.Storing?
  {
    if e.parity.Even? then Marking(e.pid, e.words, Odd) else Validating(e.pid, e.words)
  }

  function StoreStep(s: State): State
    requires s.e.Storing? && s.e.pid in s.streams
  {
    var e, t := s.e, s.streams[s.e.pid];
    var h, cw := t.Get(e.parity), WordOf(e.words, e.parity);
    s.(streams := s.streams[e.pid := t.Set(e.parity, h.(cw := cw, published := h.published + [cw]))], e := AfterWord(e))
  }

  function RelockStep(s: State): State
    requires s.e.Relocking? && s.e.pid in s.streams
  {
    match s.e.result
    case None => s.(mutex := ByEcmThread, e := Deciphered(s.e.pid))
    case Some(words) =>
      s.(streams := s.streams[s.e.pid := s.streams[s.e.pid].(deciphered := Some(words))],
         mutex := ByEcmThread, e := Marking(s.e.pid, words, Even))
  }

  function NextOfEcmThread(s: State): State
    requires Enabled(s, EcmStep) && InStreams(s)
  {
    match s.e
    case Acquiring => s.(mutex := ByEcmThread, e := Looping)
    case Looping => s.(e := Scanning(0, false, s.stop))
    case Scanning(_, _, _) => ScanStep(s)
    case Relocking(_, _) => RelockStep(s)
    case Marking(_, _, _) => MarkStep(s)
    case Storing(_, _, _) => StoreStep(s)
    case Validating(pid, _) =>
      s.(streams := s.streams[pid := s.streams[pid].(cwValid := true)], e := Deciphered(pid))
    case Deciphered(pid) => s.(e := Scanning(pid + 1, true, s.stop))
    case Parked(_) => s.(e := Acquiring)
  }

  // Signal the condition: nothing happens when nobody waits for it.
  function Signalled(e: EcmThread): EcmThread {
    if e.Parked? then Parked(true) else e
  }

  // Get the ECM stream for a PID, create it if it does not exist.
  function WithStream(streams: map<Pid, Stream>, pid: Pid): map<Pid, Stream> {
    if pid in streams then streams else streams[pid := NEW_STREAM]
  }

  function SearchStep(s: State): State
    requires s.p.Searching?
  {
    if s.p.pids == [] then s.(p := Idle)
    else
      var pid := s.p.pids[0];
      var streams := WithStream(s.streams, pid);
      s.(streams := streams, p := if streams[pid].cwValid then Checking(pid, s.p.parity)
          else Searching(s.p.pids[1..], s.p.parity))
  }

  function CheckStep(s: State): State
    requires s.p.Checking? && s.p.pid in s.streams
  {
    var h := s.streams[s.p.pid].Get(s.p.parity);
    var since := |h.published|;
    s.(p := if h.isNew then KeyLocking(s.p.pid, s.p.parity, since) else Decrypting(s.p.pid, s.p.parity, since))
  }

  function InstallStep(s: State): State
    requires s.p.Installing? && s.p.pid in s.streams
  {
    var p, t := s.p, s.streams[s.p.pid];
    var h := t.Get(p.parity);
    s.(streams := s.streams[p.pid := t.Set(p.parity, h.(key := Some(h.cw)))], p := Clearing(p.pid, p.parity, p.since))
  }

  function ClearStep(s: State): State
    requires s.p.Clearing? && s.p.pid in s.streams
  {
    var p, t := s.p, s.streams[s.p.pid];
    s.(streams := s.streams[p.pid := t.Set(p.parity, t.Get(p.parity).(isNew := false))],
       p := KeyReleasing(p.pid, p.parity, p.since))
  }

  function NextOfPacketThread(s: State): State
    requires Enabled(s, PacketStep) && InStreams(s)
  {
    match s.p
    case EcmLocking(pid, ecm) => s.(mutex := ByPacketThread, p := EcmCopying(pid, ecm))
    case EcmCopying(pid, ecm) =>
        s.(streams := s.streams[pid := s.streams[pid].(ecm := ecm)], p := EcmFlagging(pid, ecm))
    case EcmFlagging(pid, ecm) =>
      s.(streams := s.streams[pid := s.streams[pid].(newEcm := true, accepted := Some(ecm))], p := EcmSignalling)
    case EcmSignalling => s.(e := Signalled(s.e), p := EcmReleasing)
    case EcmReleasing => s.(mutex := Free, p := Idle)
    case Searching(_, _) => SearchStep(s)
    case Checking(_, _) => CheckStep(s)
    case KeyLocking(pid, parity, since) => s.(mutex := ByPacketThread, p := Installing(pid, parity, since))
    case Installing(_, _, _) => InstallStep(s)
    case Clearing(_, _, _) => ClearStep(s)
    case KeyReleasing(pid, parity, since) => s.(mutex := Free, p := Decrypting(pid, parity, since))
    case Decrypting(_, _, _) => s.(p := Idle)
    case StopLocking => s.(mutex := ByPacketThread, p := StopFlagging)
    case StopFlagging => s.(stop := true, p := StopSignalling)
    case StopSignalling => s.(e := Signalled(s.e), p := StopReleasing)
    case StopReleasing => s.(mutex := Free, p := Joining)
    case Joining => s.(p := Stopped)
  }

  // A section on some PID: an ECM, unless the PID is unknown or the table id is the
  // same as before.
  function SectionStep(s: State, pid: Pid, tid: int, ecm: Ecm, check: bool): State {
    if pid !in s.streams || s.streams[pid].lastTid == tid then s
    else
      s.(streams := s.streams[pid := s.streams[pid].(lastTid := tid)], p := if check then EcmLocking(pid, ecm) else s.p)
  }

  function Next(s: State, a: Step): State
    requires Enabled(s, a) && InStreams(s)
  {
    match a
    case EcmStep => NextOfEcmThread(s)
    case DecipherStep(None) => s.(e := Relocking(s.e.pid, None))
    case DecipherStep(Some(words)) => s.(e := Relocking(s.e.pid, Some(Words(s.e.ecm, words.0, words.1))))
    case PacketStep => NextOfPacketThread(s)
    case NewStream(pid) => s.(streams := WithStream(s.streams, pid))
    case NewSection(pid, tid, ecm, check) => SectionStep(s, pid, tid, ecm, check)
    case NewPacket(pids, parity) => s.(p := Searching(pids, parity))
    case Stop => s.(p := StopLocking)
  }

  predicate Init(s: State) {
    s == State(map[], Free, false, Acquiring, Idle)
  }

  // ----- Invariant -----

  // Where the ECM thread works on one stream, and the same for the packet thread.
  predicate EcmThreadUsesStream(e: EcmThread) {
    e.Deciphering? || e.Relocking? || Publishing(e) || e.Deciphered?
  }

  predicate Publishing(e: EcmThread) {
    e.Marking? || e.Storing? || e.Validating?
  }

  predicate PacketThreadUsesStream(p: PacketThread) {
    p.EcmLocking? || p.EcmCopying? || p.EcmFlagging? || p.Checking? || UsesKey(p)
  }

  predicate UsesKey(p: PacketThread) {
    p.KeyLocking? || p.Installing? || p.Clearing? || p.KeyReleasing? || p.Decrypting?
  }

  predicate InStreams(s: State) {
    && (EcmThreadUsesStream(s.e) ==> s.e.pid in s.streams)
    && (PacketThreadUsesStream(s.p) ==> s.p.pid in s.streams)
  }

  predicate EcmThreadLocks(e: EcmThread) {
    e.Looping? || e.Scanning? || Publishing(e) || e.Deciphered?
  }

  predicate PacketThreadLocks(p: PacketThread) {
    || p.EcmCopying? || p.EcmFlagging? || p.EcmSignalling? || p.EcmReleasing?
    || p.Installing? || p.Clearing? || p.KeyReleasing? || p.StopFlagging? || p.StopSignalling? || p.StopReleasing?
  }

  // The mutex is owned by the thread that is in a protected area, if any.
  predicate MutualExclusion(s: State) {
    && (s.mutex == ByEcmThread <==> EcmThreadLocks(s.e))
    && (s.mutex == ByPacketThread <==> PacketThreadLocks(s.p))
  }

  // The key that is installed is the last published control word unless the flag is set.
  predicate KeyIsLast(h: Half) {
    if h.published == [] then h.key == None
    else h.cw == h.published[|h.published| - 1] && (h.isNew || h.key == Some(h.cw))
  }

  // A key that was the last published control word at some point since a number of
  // them were published.
  predicate KeySince(key: Option<Cw>, published: seq<Cw>, since: nat) {
    since > 0 && exists i :: since - 1 <= i < |published| && key == Some(published[i])
  }

  predicate HalfInv(h: Half, pid: Pid, parity: Parity, e: EcmThread, p: PacketThread) {
    && KeyIsLast(h)
    && (h.isNew && h.published == [] ==> e.Storing? && e.pid == pid && e.parity == parity)
    && (e.Storing? && e.pid == pid && e.parity == parity ==> h.isNew)
    && (UsesKey(p) && p.pid == pid && p.parity == parity ==>
          && 0 < p.since <= |h.published|
          && (p.Clearing? ==> h.key == Some(h.cw))
          && (p.KeyReleasing? || p.Decrypting? ==> KeySince(h.key, h.published, p.since)))
  }

  // The control words of the last deciphered ECM are published, one after the other.
  predicate WordsInv(t: Stream, pid: Pid, e: EcmThread) {
    && (t.cwValid ==> t.even.published != [] && t.odd.published != [] && t.deciphered.Some?)
    && (if Publishing(e) && e.pid == pid then
          && t.deciphered == Some(e.words)
          && (e.Validating? || e.parity.Odd? ==> t.even.published != [] && t.even.cw == e.words.even)
          && (e.Validating? ==> t.odd.published != [] && t.odd.cw == e.words.odd)
        else
          t.deciphered.Some? ==>
              t.cwValid && t.even.cw == t.deciphered.value.even && t.odd.cw == t.deciphered.value.odd)
  }

  // The last ECM that was accepted is to be picked up, or has been.
  predicate EcmInv(t: Stream, pid: Pid, p: PacketThread) {
    && (t.newEcm && !(p.EcmFlagging? && p.pid == pid) ==> t.accepted == Some(t.ecm))
    && (p.EcmFlagging? && p.pid == pid ==> t.ecm == p.ecm)
    && (!t.newEcm ==> t.picked == t.accepted)
  }

  predicate StreamInv(t: Stream, pid: Pid, e: EcmThread, p: PacketThread) {
    && HalfInv(t.even, pid, Even, e, p) && HalfInv(t.odd, pid, Odd, e, p)
    && WordsInv(t, pid, e) && EcmInv(t, pid, p)
    && ((p.Checking? || UsesKey(p)) && p.pid == pid ==> t.cwValid)
  }

  // Before a scan finds an ECM, no ECM is left behind.
  predicate ScanInv(s: State) {
    && (s.e.Scanning? && !s.e.got ==> forall pid :: pid in s.streams && pid < s.e.next ==> !s.streams[pid].newEcm)
    && (s.e.Scanning? ==> s.e.terminate == s.stop)
  }

  // No wake-up is lost: while the ECM thread is parked without a signal, there is
  // nothing to do, or the packet thread is about to signal it.
  predicate ParkInv(s: State) {
    s.e == Parked(false) ==>
      && ((exists pid :: pid in s.streams && s.streams[pid].newEcm) ==> s.p.EcmSignalling?)
      && (s.stop ==> s.p.StopSignalling?)
  }

  predicate StopInv(s: State) {
    && (s.stop <==> s.p.StopSignalling? || s.p.StopReleasing? || s.p.Joining? || s.p.Stopped?)
    && (s.e.Terminated? ==> s.stop)
    && (s.p.Stopped? ==> s.e.Terminated?)
  }

  predicate StreamsInv(s: State) {
    forall pid :: pid in s.streams ==> StreamInv(s.streams[pid], pid, s.e, s.p)
  }

  predicate ThreadsInv(s: State) {
    InStreams(s) && MutualExclusion(s) && ScanInv(s) && ParkInv(s) && StopInv(s)
  }

  predicate Inv(s: State) {
    ThreadsInv(s) && StreamsInv(s)
  }

  lemma InitInv(s: State)
    requires Init(s)
    ensures Inv(s)
  {
  }

  // ----- The invariant is kept -----

  // A thread that does not publish on a stream does not matter for it.
  lemma SameForOthers(t: Stream, pid: Pid, e: EcmThread, e': EcmThread, p: PacketThread)
    requires StreamInv(t, pid, e, p)
    requires !(Publishing(e) && e.pid == pid) && !(Publishing(e') && e'.pid == pid)
    ensures StreamInv(t, pid, e', p)
  {
  }

  lemma StreamPicked(t: Stream, pid: Pid, e: EcmThread, e': EcmThread, p: PacketThread)
    requires StreamInv(t, pid, e, p) && t.newEcm && !p.EcmFlagging?
    requires !Publishing(e) && !Publishing(e')
    ensures StreamInv(t.(newEcm := false, picked := Some(t.ecm)), pid, e', p)
  {
  }

  lemma StreamRelocked(t: Stream, pid: Pid, e: EcmThread, words: Words, p: PacketThread)
    requires StreamInv(t, pid, e, p) && !Publishing(e)
    ensures StreamInv(t.(deciphered := Some(words)), pid, Marking(pid, words, Even), p)
  {
  }

  lemma StreamMarked(t: Stream, pid: Pid, words: Words, parity: Parity, p: PacketThread)
    requires StreamInv(t, pid, Marking(pid, words, parity), p) && !PacketThreadLocks(p)
    ensures StreamInv(t.Set(parity, t.Get(parity).(isNew := true)), pid, Storing(pid, words, parity), p)
  {
    hide KeySince;
  }

  lemma StreamSkipped(t: Stream, pid: Pid, words: Words, parity: Parity, p: PacketThread)
    requires StreamInv(t, pid, Marking(pid, words, parity), p)
    requires t.cwValid && t.Get(parity).cw == WordOf(words, parity)
    ensures StreamInv(t, pid, AfterWord(Marking(pid, words, parity)), p)
  {
    hide KeySince;
  }

  lemma StreamStored(t: Stream, pid: Pid, words: Words, parity: Parity, p: PacketThread)
    requires StreamInv(t, pid, Storing(pid, words, parity), p) && !PacketThreadLocks(p)
    ensures var h, cw := t.Get(parity), WordOf(words, parity);
            StreamInv(t.Set(parity, h.(cw := cw, published := h.published + [cw])), pid,
                      AfterWord(Storing(pid, words, parity)), p)
  {
    var h, cw := t.Get(parity), WordOf(words, parity);
    if UsesKey(p) && KeySince(h.key, h.published, p.since) {
      KeySinceLater(h.key, h.published, cw, p.since);
    }
    hide KeySince;
  }

  // A key that was the last one since some point still was when one more is published.
  lemma KeySinceLater(key: Option<Cw>, published: seq<Cw>, cw: Cw, since: nat)
    requires KeySince(key, published, since)
    ensures KeySince(key, published + [cw], since)
  {
    var i :| since - 1 <= i < |published| && key == Some(published[i]);
    assert (published + [cw])[i] == published[i];
  }

  lemma StreamValidated(t: Stream, pid: Pid, words: Words, p: PacketThread)
    requires StreamInv(t, pid, Validating(pid, words), p)
    ensures StreamInv(t.(cwValid := true), pid, Deciphered(pid), p)
  {
  }

  lemma EcmStepStreams(s: State)
    requires StreamsInv(s) && ThreadsInv(s) && Enabled(s, EcmStep)
    ensures StreamsInv(NextOfEcmThread(s))
  {
    var s' := NextOfEcmThread(s);
    forall pid | pid in s'.streams ensures StreamInv(s'.streams[pid], pid, s'.e, s'.p) {
      EcmStepStream(s, pid);
    }
  }

  lemma EcmStepStream(s: State, pid: Pid)
    requires ThreadsInv(s) && Enabled(s, EcmStep)
    requires pid in s.streams && StreamInv(s.streams[pid], pid, s.e, s.p)
    ensures var s' := NextOfEcmThread(s);
            s'.streams.Keys == s.streams.Keys && StreamInv(s'.streams[pid], pid, s'.e, s'.p)
  {
    hide StreamInv, ScanInv, ParkInv, StopInv;
    var s' := NextOfEcmThread(s);
    if EcmThreadUsesStream(s.e) && s.e.pid != pid {
      SameForOthers(s.streams[pid], pid, s.e, s'.e, s.p);
    } else {
      var t := s.streams[pid];
      match s.e {
        case Scanning(_, _, _) =>
          if s'.e.Deciphering? && s.e.next == pid {
            StreamPicked(t, pid, s.e, s'.e, s.p);
          } else {
            SameForOthers(t, pid, s.e, s'.e, s.p);
          }
        case Relocking(_, result) =>
          if result.Some? {
            StreamRelocked(t, pid, s.e, result.value, s.p);
          } else {
            SameForOthers(t, pid, s.e, s'.e, s.p);
          }
        case Marking(_, words, parity) =>
          if s'.e.Storing? {
            StreamMarked(t, pid, words, parity, s.p);
          } else {
            StreamSkipped(t, pid, words, parity, s.p);
          }
        case Storing(_, words, parity) => StreamStored(t, pid, words, parity, s.p);
        case Validating(_, words) => StreamValidated(t, pid, words, s.p);
        case _ => SameForOthers(t, pid, s.e, s'.e, s.p);
      }
    }
  }

  lemma EcmStepThreads(s: State)
    requires ThreadsInv(s) && Enabled(s, EcmStep)
    ensures ThreadsInv(NextOfEcmThread(s))
  {
  }

  // ----- Steps of the packet thread -----

  lemma SameForOthersP(t: Stream, pid: Pid, e: EcmThread, p: PacketThread, p': PacketThread)
    requires StreamInv(t, pid, e, p) && !(p.EcmFlagging? && p.pid == pid)
    requires !(PacketThreadUsesStream(p') && p'.pid == pid)
    ensures StreamInv(t, pid, e, p')
  {
  }

  lemma StreamEcmCopied(t: Stream, pid: Pid, e: EcmThread, ecm: Ecm)
    requires StreamInv(t, pid, e, EcmCopying(pid, ecm))
    ensures StreamInv(t.(ecm := ecm), pid, e, EcmFlagging(pid, ecm))
  {
  }

  lemma StreamEcmFlagged(t: Stream, pid: Pid, e: EcmThread, ecm: Ecm)
    requires StreamInv(t, pid, e, EcmFlagging(pid, ecm))
    ensures StreamInv(t.(newEcm := true, accepted := Some(ecm)), pid, e, EcmSignalling)
  {
  }

  lemma StreamChecked(t: Stream, pid: Pid, e: EcmThread, parity: Parity)
    requires StreamInv(t, pid, e, Checking(pid, parity))
    ensures var h := t.Get(parity);
            var since := |h.published|;
            StreamInv(t, pid, e, if h.isNew then KeyLocking(pid, parity, since) else Decrypting(pid, parity, since))
  {
  }

  lemma StreamInstalled(t: Stream, pid: Pid, e: EcmThread, parity: Parity, since: nat)
    requires StreamInv(t, pid, e, Installing(pid, parity, since)) && !EcmThreadLocks(e)
    ensures StreamInv(t.Set(parity, t.Get(parity).(key := Some(t.Get(parity).cw))), pid, e,
            Clearing(pid, parity, since))
  {
  }

  lemma StreamCleared(t: Stream, pid: Pid, e: EcmThread, parity: Parity, since: nat)
    requires StreamInv(t, pid, e, Clearing(pid, parity, since)) && !EcmThreadLocks(e)
    ensures StreamInv(t.Set(parity, t.Get(parity).(isNew := false)), pid, e, KeyReleasing(pid, parity, since))
  {
    var h := t.Get(parity);
    assert h.key == Some(h.published[|h.published| - 1]);
  }

  lemma PacketStepStream(s: State, pid: Pid)
    requires ThreadsInv(s) && Enabled(s, PacketStep)
    requires pid in s.streams && StreamInv(s.streams[pid], pid, s.e, s.p)
    ensures var s' := NextOfPacketThread(s); pid in s'.streams && StreamInv(s'.streams[pid], pid, s'.e, s'.p)
  {
    hide StreamInv, ScanInv, ParkInv, StopInv;
    var s' := NextOfPacketThread(s);
    var t := s.streams[pid];
    if PacketThreadUsesStream(s.p) && s.p.pid != pid {
      SameForOthersP(t, pid, s.e, s.p, s'.p);
    } else {
      match s.p {
        case EcmLocking(_, ecm) => StreamEcmLocked(t, pid, s.e, ecm);
        case EcmCopying(_, ecm) => StreamEcmCopied(t, pid, s.e, ecm);
        case EcmFlagging(_, ecm) => StreamEcmFlagged(t, pid, s.e, ecm);
        case Checking(_, parity) => StreamChecked(t, pid, s.e, parity);
        case KeyLocking(_, parity, since) => StreamKeyLocked(t, pid, s.e, parity, since);
        case Installing(_, parity, since) => StreamInstalled(t, pid, s.e, parity, since);
        case Clearing(_, parity, since) => StreamCleared(t, pid, s.e, parity, since);
        case KeyReleasing(_, parity, since) => StreamKeyReleased(t, pid, s.e, parity, since);
        case Searching(_, _) => StreamFound(t, pid, s.e, s.p, s'.p);
        case _ =>
          SameForOthersP(t, pid, s.e, s.p, s'.p);
          if s'.e != s.e {
            SameForOthers(t, pid, s.e, s'.e, s'.p);
          }
      }
    }
  }

  lemma StreamEcmLocked(t: Stream, pid: Pid, e: EcmThread, ecm: Ecm)
    requires StreamInv(t, pid, e, EcmLocking(pid, ecm))
    ensures StreamInv(t, pid, e, EcmCopying(pid, ecm))
  {
  }

  lemma StreamKeyLocked(t: Stream, pid: Pid, e: EcmThread, parity: Parity, since: nat)
    requires StreamInv(t, pid, e, KeyLocking(pid, parity, since))
    ensures StreamInv(t, pid, e, Installing(pid, parity, since))
  {
  }

  lemma StreamKeyReleased(t: Stream, pid: Pid, e: EcmThread, parity: Parity, since: nat)
    requires StreamInv(t, pid, e, KeyReleasing(pid, parity, since))
    ensures StreamInv(t, pid, e, Decrypting(pid, parity, since))
  {
  }

  lemma StreamFound(t: Stream, pid: Pid, e: EcmThread, p: PacketThread, p': PacketThread)
    requires StreamInv(t, pid, e, p) && p.Searching?
    requires p'.Searching? || p'.Idle? || (p'.Checking? && (p'.pid == pid ==> t.cwValid))
    ensures StreamInv(t, pid, e, p')
  {
  }

  lemma NewStreamInv(pid: Pid, e: EcmThread, p: PacketThread)
    requires !EcmThreadUsesStream(e) || e.pid != pid
    requires !PacketThreadUsesStream(p) || p.pid != pid
    ensures StreamInv(NEW_STREAM, pid, e, p)
  {
  }

  lemma PacketStepStreams(s: State)
    requires StreamsInv(s) && ThreadsInv(s) && Enabled(s, PacketStep)
    ensures StreamsInv(NextOfPacketThread(s))
  {
    hide StreamInv, ScanInv, ParkInv, StopInv, MutualExclusion;
    var s' := NextOfPacketThread(s);
    forall pid | pid in s'.streams ensures StreamInv(s'.streams[pid], pid, s'.e, s'.p) {
      if pid in s.streams {
        PacketStepStream(s, pid);
      } else {
        NewStreamInv(pid, s'.e, s'.p);
      }
    }
  }

  lemma PacketStepThreads(s: State)
    requires StreamsInv(s) && ThreadsInv(s) && Enabled(s, PacketStep)
    ensures ThreadsInv(NextOfPacketThread(s))
  {
    hide StreamInv;
    PacketStepScan(s);
    PacketStepStop(s);
    hide ScanInv, ParkInv, StopInv;
  }

  lemma PacketStepScan(s: State)
    requires ThreadsInv(s) && Enabled(s, PacketStep)
    ensures ScanInv(NextOfPacketThread(s)) && ParkInv(NextOfPacketThread(s))
  {
  }

  lemma PacketStepStop(s: State)
    requires ThreadsInv(s) && Enabled(s, PacketStep)
    ensures StopInv(NextOfPacketThread(s))
  {
    hide ScanInv, ParkInv;
  }

  // ----- All steps and runs -----

  lemma DecipherStepInv(s: State, result: Option<(Cw, Cw)>)
    requires Inv(s) && Enabled(s, DecipherStep(result))
    ensures Inv(Next(s, DecipherStep(result)))
  {
    hide StreamInv, StreamsInv;
    var s' := Next(s, DecipherStep(result));
    assert ThreadsInv(s');
    hide ThreadsInv;
    OtherThreadMoved(s, s');
  }

  // No stream changes, and no thread changes what matters for streams.
  lemma OtherThreadMoved(s: State, s': State)
    requires StreamsInv(s) && s'.streams == s.streams && s'.p == s.p && !Publishing(s.e) && !Publishing(s'.e)
    ensures StreamsInv(s')
  {
    hide StreamInv;
    forall pid | pid in s.streams ensures StreamInv(s.streams[pid], pid, s'.e, s.p) {
      SameForOthers(s.streams[pid], pid, s.e, s'.e, s.p);
    }
  }

  lemma NewStreamStepInv(s: State, pid: Pid)
    requires Inv(s) && Enabled(s, NewStream(pid))
    ensures Inv(Next(s, NewStream(pid)))
  {
    hide StreamInv;
    if pid !in s.streams {
      NewStreamInv(pid, s.e, s.p);
    }
  }

  lemma NewSectionStepInv(s: State, pid: Pid, tid: int, ecm: Ecm, check: bool)
    requires Inv(s) && Enabled(s, NewSection(pid, tid, ecm, check))
    ensures Inv(Next(s, NewSection(pid, tid, ecm, check)))
  {
    hide StreamInv, StreamsInv;
    var s' := Next(s, NewSection(pid, tid, ecm, check));
    if s' != s {
      assert ThreadsInv(s');
      hide ThreadsInv;
      SectionStreams(s, s', pid, tid);
    }
  }

  lemma SectionStreams(s: State, s': State, pid: Pid, tid: int)
    requires StreamsInv(s) && s'.e == s.e && s.p.Idle? && (s'.p.Idle? || s'.p.EcmLocking?) && pid in s.streams
    requires s'.streams == s.streams[pid := s.streams[pid].(lastTid := tid)]
    ensures StreamsInv(s')
  {
    hide StreamInv;
    forall q | q in s.streams ensures StreamInv(s'.streams[q], q, s.e, s'.p) {
      StreamOfSection(s.streams[q], q, s.e, s.p, s'.p, tid);
    }
  }

  lemma StreamOfSection(t: Stream, pid: Pid, e: EcmThread, p: PacketThread, p': PacketThread, tid: int)
    requires StreamInv(t, pid, e, p) && p.Idle? && (p'.Idle? || p'.EcmLocking?)
    ensures StreamInv(t, pid, e, p') && StreamInv(t.(lastTid := tid), pid, e, p')
  {
  }

  lemma PacketThreadStartsInv(s: State, a: Step)
    requires Inv(s) && Enabled(s, a) && (a.NewPacket? || a.Stop?)
    ensures Inv(Next(s, a))
  {
    var s' := Next(s, a);
    hide StreamInv;
    forall pid | pid in s.streams ensures StreamInv(s.streams[pid], pid, s.e, s'.p) {
      SameForOthersP(s.streams[pid], pid, s.e, s.p, s'.p);
    }
  }

  lemma StepInv(s: State, a: Step)
    requires Inv(s) && Enabled(s, a)
    ensures Inv(Next(s, a))
  {
    hide StreamsInv, ThreadsInv, NextOfEcmThread, NextOfPacketThread;
    match a {
      case EcmStep =>
        EcmStepStreams(s);
        EcmStepThreads(s);
      case PacketStep =>
        PacketStepStreams(s);
        PacketStepThreads(s);
      case DecipherStep(result) => DecipherStepInv(s, result);
      case NewStream(pid) => NewStreamStepInv(s, pid);
      case NewSection(pid, tid, ecm, check) => NewSectionStepInv(s, pid, tid, ecm, check);
      case _ => PacketThreadStartsInv(s, a);
    }
  }

  // A run is a sequence of states from an initial one, each step being enabled.
  ghost predicate IsRun(states: seq<State>, steps: seq<Step>) {
    && |states| == |steps| + 1 && Init(states[0])
    && forall i :: 0 <= i < |steps| ==> StepIs(states[i], steps[i], states[i + 1])
  }

  ghost predicate StepIs(s: State, a: Step, s': State) {
    Enabled(s, a) && InStreams(s) && s' == Next(s, a)
  }

  lemma {:induction false} InvOnRuns(states: seq<State>, steps: seq<Step>, n: nat)
    requires IsRun(states, steps) && n < |states|
    ensures Inv(states[n])
  {
    hide Inv, Enabled, Next, InStreams;
    if n == 0 {
      InitInv(states[0]);
    } else {
      InvOnRuns(states, steps, n - 1);
      assert StepIs(states[n - 1], steps[n - 1], states[n]);
      StepInv(states[n - 1], steps[n - 1]);
    }
  }

  // ----- Safety over all runs -----

  // While the flag of a parity is clear, the key that is installed is the last
  // published control word; there is always one in a valid stream.
  lemma InstalledKeyIsLast(states: seq<State>, steps: seq<Step>, n: nat, pid: Pid, parity: Parity)
    requires IsRun(states, steps) && n < |states| && pid in states[n].streams
    ensures var h := states[n].streams[pid].Get(parity);
            && (states[n].streams[pid].cwValid ==> h.published != [])
            && (states[n].streams[pid].cwValid && !h.isNew ==>
                h.key == Some(h.cw) == Some(h.published[|h.published| - 1]))
  {
    InvOnRuns(states, steps, n);
    assert StreamInv(states[n].streams[pid], pid, states[n].e, states[n].p);
  }

  // Outside the protected area of the ECM thread, the control words of a stream are
  // those of the last ECM that was deciphered, and so are the keys once installed.
  lemma WordsOfLastEcm(states: seq<State>, steps: seq<Step>, n: nat, pid: Pid)
    requires IsRun(states, steps) && n < |states| && pid in states[n].streams
    requires states[n].mutex != ByEcmThread && states[n].streams[pid].deciphered.Some?
    ensures var t := states[n].streams[pid];
            && t.cwValid && t.even.cw == t.deciphered.value.even && t.odd.cw == t.deciphered.value.odd
            && (!t.even.isNew ==> t.even.key == Some(t.deciphered.value.even))
            && (!t.odd.isNew ==> t.odd.key == Some(t.deciphered.value.odd))
  {
    InvOnRuns(states, steps, n);
    assert StreamInv(states[n].streams[pid], pid, states[n].e, states[n].p);
    assert KeyIsLast(states[n].streams[pid].even) && KeyIsLast(states[n].streams[pid].odd);
  }

  // The number of published control words does not change while a packet goes from
  // the check of the flag to its decryption, as the packet thread remembers it.
  lemma {:induction false} CheckedBefore(states: seq<State>, steps: seq<Step>, n: nat) returns (m: nat)
    requires IsRun(states, steps) && n < |states| && UsesKey(states[n].p)
    ensures m < n && states[m].p == Checking(states[n].p.pid, states[n].p.parity)
            && states[n].p.pid in states[m].streams
    ensures states[n].p.since == |states[m].streams[states[n].p.pid].Get(states[n].p.parity).published|
    ensures forall k :: m < k <= n ==> UsesKey(states[k].p)
  {
    hide Inv, NextOfEcmThread;
    assert n > 0;
    assert StepIs(states[n - 1], steps[n - 1], states[n]);
    if states[n - 1].p.Checking? {
      m := n - 1;
      KeyUseBegins(states[n - 1], steps[n - 1], states[n]);
    } else {
      SameKeyUse(states[n - 1], steps[n - 1], states[n]);
      m := CheckedBefore(states, steps, n - 1);
    }
  }

  lemma KeyUseBegins(s: State, a: Step, s': State)
    requires StepIs(s, a, s') && UsesKey(s'.p) && s.p.Checking?
    ensures s'.p.pid == s.p.pid && s'.p.parity == s.p.parity
    ensures s.p.pid in s.streams && s'.p.since == |s.streams[s.p.pid].Get(s.p.parity).published|
  {
    hide NextOfEcmThread;
    if a == EcmStep {
      EcmThreadOnly(s);
    }
  }

  lemma SameKeyUse(s: State, a: Step, s': State)
    requires StepIs(s, a, s') && UsesKey(s'.p) && !s.p.Checking?
    ensures UsesKey(s.p) && s'.p.pid == s.p.pid && s'.p.parity == s.p.parity && s'.p.since == s.p.since
  {
    hide NextOfEcmThread;
    if a == EcmStep {
      EcmThreadOnly(s);
    }
  }

  lemma EcmThreadOnly(s: State)
    requires InStreams(s) && Enabled(s, EcmStep)
    ensures NextOfEcmThread(s).p == s.p
  {
  }

  // A packet is decrypted with a key that was published, in the stream and for the
  // parity of the packet, and which is not older than the last one that was published
  // when the flag was checked for that packet.
  lemma DecryptsWithRecentKey(states: seq<State>, steps: seq<Step>, n: nat) returns (m: nat, i: nat)
    requires IsRun(states, steps) && n < |states| && states[n].p.Decrypting?
    ensures m < n && states[m].p == Checking(states[n].p.pid, states[n].p.parity)
    ensures states[n].p.pid in states[m].streams && states[n].p.pid in states[n].streams
    ensures var h := states[n].streams[states[n].p.pid].Get(states[n].p.parity);
            var published := |states[m].streams[states[n].p.pid].Get(states[n].p.parity).published|;
            published > 0 && published - 1 <= i < |h.published| && h.key == Some(h.published[i])
  {
    m := CheckedBefore(states, steps, n);
    InvOnRuns(states, steps, n);
    var s := states[n];
    assert StreamInv(s.streams[s.p.pid], s.p.pid, s.e, s.p);
    var h := s.streams[s.p.pid].Get(s.p.parity);
    i :| s.p.since - 1 <= i < |h.published| && h.key == Some(h.published[i]);
  }

  // No lost wake-up: when the ECM thread waits without a signal and the mutex is free,
  // the last accepted ECM of every stream was picked up and no stop is requested.
  lemma NoLostWakeUp(states: seq<State>, steps: seq<Step>, n: nat)
    requires IsRun(states, steps) && n < |states| && states[n].e == Parked(false) && states[n].mutex == Free
    ensures !states[n].stop
    ensures forall pid :: pid in states[n].streams ==>
              !states[n].streams[pid].newEcm && states[n].streams[pid].picked == states[n].streams[pid].accepted
  {
    InvOnRuns(states, steps, n);
    var s := states[n];
    forall pid | pid in s.streams ensures !s.streams[pid].newEcm && s.streams[pid].picked == s.streams[pid].accepted {
      assert StreamInv(s.streams[pid], pid, s.e, s.p);
    }
  }

  // The streams that were there still are, with the same picked ECM.
  predicate SamePicked(s: State, s': State) {
    forall pid :: pid in s.streams ==> pid in s'.streams && s'.streams[pid].picked == s.streams[pid].picked
  }

  lemma EcmStepPicks(s: State)
    requires ThreadsInv(s) && Enabled(s, EcmStep) && s.stop
    ensures SamePicked(s, NextOfEcmThread(s)) && NextOfEcmThread(s).stop && !NextOfEcmThread(s).e.Deciphering?
  {
  }

  lemma PacketStepPicks(s: State)
    requires InStreams(s) && StopInv(s) && Enabled(s, PacketStep)
    ensures SamePicked(s, NextOfPacketThread(s)) && (s.stop ==> NextOfPacketThread(s).stop)
    ensures NextOfPacketThread(s).e.Deciphering? ==> s.e.Deciphering?
  {
  }

  // Once the stop is requested, no ECM is picked up.
  lemma NothingPickedAfterStop(states: seq<State>, steps: seq<Step>, n: nat)
    requires IsRun(states, steps) && n < |steps| && states[n].stop
    ensures states[n + 1].stop && SamePicked(states[n], states[n + 1])
    ensures states[n + 1].e.Deciphering? ==> states[n].e.Deciphering?
  {
    InvOnRuns(states, steps, n);
    assert StepIs(states[n], steps[n], states[n + 1]);
    hide StreamsInv, InStreams, MutualExclusion, ScanInv, ParkInv, NextOfEcmThread, NextOfPacketThread;
    if steps[n] == EcmStep {
      EcmStepPicks(states[n]);
    } else if steps[n] == PacketStep {
      PacketStepPicks(states[n]);
    }
  }

  // How many steps the ECM thread still makes at most after a stop request.
  function Rank(e: EcmThread): nat {
    match e
    case Parked(_) => 12
    case Acquiring => 11
    case Looping => 10
    case Deciphering(_, _) => 9
    case Relocking(_, _) => 8
    case Marking(_, _, parity) => if parity.Even? then 7 else 5
    case Storing(_, _, parity) => if parity.Even? then 6 else 4
    case Validating(_, _) => 3
    case Deciphered(_) => 2
    case Scanning(_, _, _) => 1
    case Terminated => 0
  }

  // While the packet thread waits for the end of the ECM thread, some step is always
  // possible, and there are at most 12 of them before the ECM thread terminates.
  lemma JoinEnds(s: State, a: Step)
    requires Inv(s) && s.p.Joining?
    ensures s.e.Terminated? <==> Enabled(s, PacketStep)
    ensures !s.e.Terminated? ==> Enabled(s, EcmStep) || Enabled(s, DecipherStep(None))
    ensures Enabled(s, a) && a != PacketStep ==> Next(s, a).p.Joining? && Rank(Next(s, a).e) < Rank(s.e)
  {
    hide StreamsInv;
  }

  lemma {:induction false} JoinIsShort(states: seq<State>, steps: seq<Step>, n: nat, m: nat)
    requires IsRun(states, steps) && n <= m < |states|
    requires forall k :: n <= k <= m ==> states[k].p.Joining?
    ensures m - n + Rank(states[m].e) <= Rank(states[n].e) <= 12
    decreases m - n
  {
    hide Inv, Next, Enabled, InStreams;
    if n < m {
      InvOnRuns(states, steps, n);
      assert StepIs(states[n], steps[n], states[n + 1]);
      JoinEnds(states[n], steps[n]);
      JoinedStops(states[n], steps[n]);
      JoinIsShort(states, steps, n + 1, m);
    }
  }

  lemma JoinedStops(s: State, a: Step)
    requires Inv(s) && s.p.Joining? && Enabled(s, a)
    ensures a == PacketStep ==> Next(s, a).p.Stopped?
  {
    hide StreamsInv;
  }

  // ----- Catching up -----

  // The streams with an ECM to pick up.
  function Pending(streams: map<Pid, Stream>): set<Pid> {
    set pid | pid in streams && streams[pid].newEcm
  }

  predicate PidsBelow(streams: map<Pid, Stream>, bound: nat) {
    forall pid :: pid in streams ==> pid < bound
  }

  // How many steps the ECM thread still makes in its scans, when no more ECM is found.
  function ScanRank(e: EcmThread, bound: nat): int {
    match e
    case Parked(signalled) => if signalled then bound + 4 else 0
    case Acquiring => bound + 3
    case Looping => bound + 2
    case Scanning(next, got, _) => bound - next + 1 + if got then bound + 3 else 0
    case Deciphering(pid, _) => Rank(e) + 2 * bound - pid + 5
    case Relocking(pid, _) => Rank(e) + 2 * bound - pid + 5
    case Marking(pid, _, _) => Rank(e) + 2 * bound - pid + 5
    case Storing(pid, _, _) => Rank(e) + 2 * bound - pid + 5
    case Validating(pid, _) => Rank(e) + 2 * bound - pid + 5
    case Deciphered(pid) => Rank(e) + 2 * bound - pid + 5
    case Terminated => 0
  }

  // How many steps it makes at most before it waits, with all ECM's that are pending.
  function Work(s: State, bound: nat): int {
    |Pending(s.streams)| * (bound + 14) + ScanRank(s.e, bound)
  }

  // Where the ECM thread is in a scan is not beyond all streams.
  predicate InScan(e: EcmThread, bound: nat) {
    e.Scanning? ==> e.next <= bound
  }

  predicate IsOfEcmThread(a: Step) {
    a.EcmStep? || a.DecipherStep?
  }

  lemma OnePicked(streams: map<Pid, Stream>, pid: Pid, t: Stream)
    requires pid in streams && streams[pid].newEcm && !t.newEcm
    ensures |Pending(streams[pid := t])| == |Pending(streams)| - 1
  {
    assert Pending(streams[pid := t]) == Pending(streams) - {pid};
  }

  lemma SamePending(streams: map<Pid, Stream>, streams': map<Pid, Stream>)
    requires forall pid :: pid in streams && streams[pid].newEcm <==> pid in streams' && streams'[pid].newEcm
    ensures Pending(streams') == Pending(streams)
  {
  }

  lemma WorkOfOneMore(n: int, bound: nat)
    ensures (n - 1) * (bound + 14) + bound + 14 == n * (bound + 14)
  {
  }

  // A step of the ECM thread that picks an ECM.
  predicate Picks(s: State, a: Step) {
    a.EcmStep? && s.e.Scanning? && !s.e.terminate && s.e.next in s.streams && s.streams[s.e.next].newEcm
  }

  // The other steps of the ECM thread bring the end of its scans nearer.
  lemma ScanGoesOn(s: State, a: Step, bound: nat)
    requires ThreadsInv(s) && s.p.Idle? && s.e != Parked(false) && PidsBelow(s.streams, bound) && InScan(s.e, bound)
    requires Enabled(s, a) && IsOfEcmThread(a) && !Picks(s, a)
    ensures 0 <= ScanRank(Next(s, a).e, bound) < ScanRank(s.e, bound)
    ensures Pending(Next(s, a).streams) == Pending(s.streams)
  {
    SamePending(s.streams, Next(s, a).streams);
  }

  lemma PickingGoesOn(s: State, a: Step, bound: nat)
    requires ThreadsInv(s) && s.p.Idle? && PidsBelow(s.streams, bound) && InScan(s.e, bound)
    requires Enabled(s, a) && Picks(s, a)
    ensures 0 <= ScanRank(Next(s, a).e, bound) < ScanRank(s.e, bound) + bound + 14
    ensures |Pending(Next(s, a).streams)| == |Pending(s.streams)| - 1
  {
    OnePicked(s.streams, s.e.next, Next(s, a).streams[s.e.next]);
  }

  // While the packet thread is idle and the ECM thread does not wait, the ECM thread can
  // make a step, and each of its steps leaves less work.

  lemma CanGoOn(s: State)
    requires ThreadsInv(s) && s.p.Idle? && s.e != Parked(false)
    ensures Enabled(s, EcmStep) || Enabled(s, DecipherStep(None))
  {
    hide ScanInv, ParkInv;
  }

  lemma LessWork(s: State, a: Step, bound: nat)
    requires ThreadsInv(s) && s.p.Idle? && s.e != Parked(false) && PidsBelow(s.streams, bound) && InScan(s.e, bound)
    requires Enabled(s, a) && IsOfEcmThread(a)
    ensures 0 <= Work(Next(s, a), bound) < Work(s, bound)
  {
    hide Next, ScanRank, Pending, Enabled, ThreadsInv, Picks;
    if Picks(s, a) {
      PickingGoesOn(s, a, bound);
      WorkOfOneMore(|Pending(s.streams)|, bound);
    } else {
      ScanGoesOn(s, a, bound);
    }
  }

  // The steps of the packet thread that leave it idle give no work.
  lemma IdleStep(s: State, a: Step, bound: nat)
    requires InStreams(s) && Enabled(s, a) && !IsOfEcmThread(a) && s.p.Idle? && Next(s, a).p.Idle?
    ensures Work(Next(s, a), bound) == Work(s, bound)
  {
    hide NextOfEcmThread, NextOfPacketThread;
    SamePending(s.streams, Next(s, a).streams);
    hide ScanRank;
  }

  // Streams are never removed, and a scan stays below their bound.
  lemma ScanStaysInBounds(s: State, a: Step, bound: nat)
    requires InStreams(s) && Enabled(s, a) && PidsBelow(Next(s, a).streams, bound)
    ensures PidsBelow(s.streams, bound) && (InScan(s.e, bound) ==> InScan(Next(s, a).e, bound))
  {
    assert s.streams.Keys <= Next(s, a).streams.Keys;
  }

  lemma {:induction false} ScanInBounds(states: seq<State>, steps: seq<Step>, n: nat, bound: nat)
    requires IsRun(states, steps) && n < |states| && PidsBelow(states[n].streams, bound)
    ensures InScan(states[n].e, bound)
  {
    hide Inv, Next, Enabled, InStreams, PidsBelow;
    if n > 0 {
      assert StepIs(states[n - 1], steps[n - 1], states[n]);
      ScanStaysInBounds(states[n - 1], steps[n - 1], bound);
      ScanInBounds(states, steps, n - 1, bound);
    }
  }

  // The number of steps of the ECM thread from state n to state m.
  function EcmSteps(steps: seq<Step>, n: nat, m: nat): nat
    requires n <= m <= |steps|
    decreases m - n
  {
    if n == m then 0 else (if IsOfEcmThread(steps[n]) then 1 else 0) + EcmSteps(steps, n + 1, m)
  }

  ghost predicate IdleUntil(states: seq<State>, n: nat, m: nat) {
    n <= m < |states| && forall k :: n <= k <= m ==> states[k].p.Idle? && (k < m ==> states[k].e != Parked(false))
  }

  // As long as the packet thread stays idle, the number of steps that the ECM thread makes
  // before it waits is bounded by its work at the beginning.
  lemma {:induction false} WorkBoundsSteps(states: seq<State>, steps: seq<Step>, n: nat, m: nat, bound: nat)
    requires IsRun(states, steps) && IdleUntil(states, n, m) && PidsBelow(states[m].streams, bound)
    ensures EcmSteps(steps, n, m) + Work(states[m], bound) <= Work(states[n], bound)
    ensures PidsBelow(states[n].streams, bound)
    decreases m - n
  {
    hide Inv, Next, Enabled, InStreams, PidsBelow, Work, ThreadsInv;
    if n < m {
      WorkBoundsSteps(states, steps, n + 1, m, bound);
      InvOnRuns(states, steps, n);
      assert StepIs(states[n], steps[n], states[n + 1]);
      ScanStaysInBounds(states[n], steps[n], bound);
      ScanInBounds(states, steps, n, bound);
      InvOfThreads(states[n]);
      if IsOfEcmThread(steps[n]) {
        LessWork(states[n], steps[n], bound);
      } else {
        IdleStep(states[n], steps[n], bound);
      }
    }
  }

  lemma InvOfThreads(s: State)
    ensures Inv(s) ==> ThreadsInv(s) && InStreams(s)
  {
    hide StreamsInv;
  }

  lemma WorkIsNatural(s: State, bound: nat)
    requires InStreams(s) && PidsBelow(s.streams, bound) && InScan(s.e, bound)
    ensures Work(s, bound) >= 0
  {
    hide Pending;
  }

  // The ECM thread catches up: while the packet thread stays idle, it can always make a
  // step or waits, makes no more steps than its work before it waits, and has then picked
  // up every ECM that was accepted.
  lemma CatchesUp(states: seq<State>, steps: seq<Step>, n: nat, m: nat, bound: nat)
    requires IsRun(states, steps) && IdleUntil(states, n, m) && PidsBelow(states[m].streams, bound)
    ensures EcmSteps(steps, n, m) <= Work(states[n], bound)
    ensures states[m].e != Parked(false) ==> Enabled(states[m], EcmStep) || Enabled(states[m], DecipherStep(None))
    ensures states[m].e == Parked(false) ==>
              forall pid :: pid in states[m].streams ==>
                  states[m].streams[pid].picked == states[m].streams[pid].accepted
  {
    hide Next, Enabled, PidsBelow, Work, InStreams;
    InvOnRuns(states, steps, m);
    InvOfThreads(states[m]);
    WorkBoundsSteps(states, steps, n, m, bound);
    ScanInBounds(states, steps, m, bound);
    WorkIsNatural(states[m], bound);
    if states[m].e == Parked(false) {
      assert states[m].mutex == Free;
      NoLostWakeUp(states, steps, m);
    } else {
      CanGoOn(states[m]);
    }
  }

  // No deadlock: while the packet thread has something to do, one of the threads can
  // make a step, other than a spurious wake-up.
  lemma NoDeadlock(states: seq<State>, steps: seq<Step>, n: nat)
    requires IsRun(states, steps) && n < |states| && !states[n].p.Idle? && !states[n].p.Stopped?
    ensures var s := states[n];
            || Enabled(s, PacketStep) || Enabled(s, DecipherStep(None))
            || (Enabled(s, EcmStep) && s.e != Parked(false))
  {
    InvOnRuns(states, steps, n);
    hide StreamsInv, ScanInv;
  }
}
