/** The fork-server protocol: `run_target` and the SIGALRM handler on one side (AFLGo/afl-fuzz.c:2682-2749,
    AFLGo/afl-fuzz.c:7426-7442), `__afl_start_forkserver` on the other
    (AFLGo/llvm_mode/afl-llvm-rt.o.c:121-185), with the target process and a one-shot timer between them.

    Each system call or group of statements no other party can observe is one atomic step; any enabled
    step may come next. */
module ForkServer {

  /** A target process that exists and has not been reaped.  `reported` says that the current stop has
      been returned by a `waitpid`. */
  datatype Process = Running | Stopped(reported: bool) | Zombie(status: Status)

  datatype Status = Terminated | KilledBySignal | WasStopped

  /** What becomes of one run of a target: from its fork or its SIGCONT to its death or its next stop. */
  datatype Fate = Unfinished | Ended(status: Status)

  datatype Run = Run(pid: nat, fate: Fate)

  /** A word on the status pipe.  On the wire both are four bytes; which one the fuzzer takes it for
      depends on where it is in its protocol. */
  datatype Word = PidWord(pid: nat) | StatusWord(pid: nat, status: Status)

  datatype FuzzerPc =
    | Idle          // before writing the request
    | WaitPid       // reading the child's pid
    | Arm           // before setitimer
    | WaitStatus    // reading the status, timer running
    | ClearPid      // status read: if (!WIFSTOPPED(status)) child_pid = 0
    | Disarm        // before the second setitimer
    | Record        // prev_timed_out = child_timed_out
    | Confused      // a word was taken for something it is not

  datatype ServerPc =
    | ReadRequest
    | ReapOld       // waitpid(child_pid, &status, 0) on the written-off process
    | Start         // fork or SIGCONT
    | SendPid
    | WaitChild     // waitpid(child_pid, &status, is_persistent ? WUNTRACED : 0)
    | SendStatus
    | Exited        // a waitpid failed: _exit(1)

  datatype Action = FuzzerStep | ServerStep | ChildExits(status: Status) | ChildStops | TimerFires

  datatype State = State(
    persistent: bool,
    // fuzzer
    fpc: FuzzerPc, childPid: nat, timedOut: bool, prevTimedOut: bool, status: Status, armed: bool,
    // server
    spc: ServerPc, serverPid: nat, childStopped: bool, serverStatus: Status,
    // pipes, oldest word first
    ctl: seq<bool>, st: seq<Word>,
    // kernel: unreaped target processes and the next pid to hand out
    procs: map<nat, Process>, nextPid: nat,
    // what happened: the fuzzer's requests, the pids and statuses it read with the pids of the latter, and
    // what became of the targets
    requests: nat, pidLog: seq<nat>, statusLog: seq<nat>, statuses: seq<Status>, runs: seq<Run>,
    badCont: bool, strayKill: bool)

  ghost predicate Init(s: State) {
    && s.fpc == Idle && s.childPid == 0 && !s.timedOut && !s.prevTimedOut && !s.armed
    && s.spc == ReadRequest && !s.childStopped && s.ctl == [] && s.st == []
    && s.procs == map[] && s.nextPid > 0 && s.serverPid < s.nextPid
    && s.requests == 0 && s.pidLog == [] && s.statusLog == [] && s.statuses == [] && s.runs == []
    && !s.badCont && !s.strayKill
  }

  // ----- steps -----

  /** `kill(pid, SIGKILL)`; a pid that is gone is ignored, a zombie stays as it is. */
  function Kill(procs: map<nat, Process>, pid: nat): map<nat, Process> {
    if pid in procs && !procs[pid].Zombie? then procs[pid := Zombie(KilledBySignal)] else procs
  }

  /** The latest run, if it is one of `pid`, has ended in `x`. */
  function Note(runs: seq<Run>, pid: nat, x: Status): seq<Run> {
    if runs != [] && runs[|runs| - 1].pid == pid then runs[|runs| - 1 := Run(pid, Ended(x))] else runs
  }

  /** SIGKILL ends a run unless its end is final: the target is dead, or its stop has been reported. */
  predicate Killable(procs: map<nat, Process>, pid: nat) {
    pid in procs && (procs[pid] == Running || procs[pid] == Stopped(false))
  }

  predicate FuzzerEnabled(s: State) {
    match s.fpc
    case WaitPid => s.st != []
    case WaitStatus => s.st != []
    case Confused => false
    case _ => true
  }

  function FuzzerNext(s: State): State
    requires FuzzerEnabled(s)
  {
    match s.fpc
    case Idle => s.(timedOut := false, ctl := s.ctl + [s.prevTimedOut], requests := s.requests + 1, fpc := WaitPid)
    case WaitPid =>
      var s' := s.(st := s.st[1..]);
      (match s.st[0]
       case PidWord(p) => s'.(childPid := p, pidLog := s.pidLog + [p], fpc := Arm)
       case StatusWord(_, _) => s'.(fpc := Confused))
    case Arm => s.(armed := true, fpc := WaitStatus)
    case WaitStatus =>
      var s' := s.(st := s.st[1..]);
      (match s.st[0]
       case StatusWord(p, x) =>
         s'.(status := x, statusLog := s.statusLog + [p], statuses := s.statuses + [x], fpc := ClearPid)
       case PidWord(_) => s'.(fpc := Confused))
    case ClearPid => s.(childPid := if s.status == WasStopped then s.childPid else 0, fpc := Disarm)
    case Disarm => s.(armed := false, fpc := Record)
    case Record => s.(prevTimedOut := s.timedOut, fpc := Idle)
  }

  /** A `waitpid` blocks while the process runs; it fails at once when there is no such child. */
  predicate Waitable(s: State, untraced: bool) {
    s.serverPid !in s.procs || s.procs[s.serverPid].Zombie? || (untraced && s.procs[s.serverPid] == Stopped(false))
  }

  predicate ServerEnabled(s: State) {
    match s.spc
    case ReadRequest => s.ctl != []
    case ReapOld => Waitable(s, false)
    case WaitChild => Waitable(s, s.persistent)
    case Exited => false
    case _ => true
  }

  function ServerNext(s: State): State
    requires ServerEnabled(s)
  {
    match s.spc
    case ReadRequest =>
      var s' := s.(ctl := s.ctl[1..]);
      if s.childStopped && s.ctl[0] then s'.(childStopped := false, spc := ReapOld) else s'.(spc := Start)
    case ReapOld =>
      if s.serverPid !in s.procs then s.(spc := Exited)
      else s.(procs := s.procs - {s.serverPid}, spc := Start)
    case Start =>
      if !s.childStopped
      then s.(serverPid := s.nextPid, nextPid := s.nextPid + 1, procs := s.procs[s.nextPid := Running],
              runs := s.runs + [Run(s.nextPid, Unfinished)], spc := SendPid)
      else
        var live := s.serverPid in s.procs && s.procs[s.serverPid].Stopped?;
        s.(procs := if live then s.procs[s.serverPid := Running] else s.procs,
           runs := s.runs + [Run(s.serverPid, Unfinished)],
           badCont := s.badCont || !live, childStopped := false, spc := SendPid)
    case SendPid => s.(st := s.st + [PidWord(s.serverPid)], spc := WaitChild)
    case WaitChild =>
      if s.serverPid !in s.procs then s.(spc := Exited)
      else
        (match s.procs[s.serverPid]
         case Zombie(x) => s.(procs := s.procs - {s.serverPid}, serverStatus := x, spc := SendStatus)
         case _ => s.(procs := s.procs[s.serverPid := Stopped(true)], serverStatus := WasStopped,
                      childStopped := true, spc := SendStatus))
    case SendStatus => s.(st := s.st + [StatusWord(s.serverPid, s.serverStatus)], spc := ReadRequest)
  }

  predicate ByChild(a: Action) {
    a.ChildExits? || a.ChildStops?
  }

  predicate Enabled(s: State, a: Action, pid: nat) {
    match a
    case FuzzerStep => FuzzerEnabled(s)
    case ServerStep => ServerEnabled(s)
    case ChildExits(x) => pid in s.procs && s.procs[pid] == Running && x != WasStopped
    case ChildStops => pid in s.procs && s.procs[pid] == Running
    case TimerFires => s.armed
  }

  /** `pid` names the process that moves in `ChildExits` and `ChildStops`. */
  function Next(s: State, a: Action, pid: nat): State
    requires Enabled(s, a, pid)
  {
    match a
    case FuzzerStep => FuzzerNext(s)
    case ServerStep => ServerNext(s)
    case ChildExits(x) => s.(procs := s.procs[pid := Zombie(x)], runs := Note(s.runs, pid, x))
    case ChildStops => s.(procs := s.procs[pid := Stopped(false)], runs := Note(s.runs, pid, WasStopped))
    case TimerFires =>
      var s' := s.(armed := false);
      if s.childPid == 0 then s'
      else s'.(timedOut := true, procs := Kill(s.procs, s.childPid),
               runs := if Killable(s.procs, s.childPid) then Note(s.runs, s.childPid, KilledBySignal) else s.runs,
               strayKill := s.strayKill || (s.childPid in s.procs && s.childPid != s.serverPid))
  }

  /** A run: states linked by enabled steps. */
  ghost predicate IsRun(states: seq<State>) {
    && states != [] && Init(states[0])
    && forall i, j :: 0 <= i < j < |states| && j == i + 1 ==> Follows(states[i], states[j])
  }

  ghost predicate Follows(s: State, t: State) {
    exists a, pid :: Enabled(s, a, pid) && t == Next(s, a, pid)
  }

  // ----- the invariant -----

  /** The server's current child exists and is dead. */
  predicate Dead(s: State) {
    s.serverPid in s.procs && s.procs[s.serverPid].Zombie?
  }

  /** The server believes its child is stopped, and it is, unless it was killed after stopping. */
  predicate Held(s: State, killed: bool) {
    && s.serverPid in s.procs
    && s.procs[s.serverPid] == if killed then Zombie(KilledBySignal) else Stopped(true)
  }

  /** Once the child is waited for: gone, or held. */
  predicate AfterWait(s: State, killed: bool) {
    if s.childStopped then Held(s, killed) else s.procs == map[]
  }

  /** Server half way through a request with nothing sent yet. */
  predicate Preparing(s: State) {
    || (s.spc == ReapOld && !s.childStopped && Dead(s))
    || (s.spc == Start && if s.childStopped then Held(s, false) else s.procs == map[])
    || (s.spc == SendPid && !s.childStopped && 0 < s.serverPid &&
        s.serverPid in s.procs && s.procs[s.serverPid] != Stopped(true))
  }

  /** Server between sending the pid and having sent the status; `fired` says the timer has gone off on
      this child. */
  predicate Watching(s: State, st: seq<Word>, fired: bool) {
    && 0 < s.serverPid
    && match s.spc
       case WaitChild =>
         && st == [] && !s.childStopped && s.serverPid in s.procs && s.procs[s.serverPid] != Stopped(true)
         && (fired ==> Dead(s))
       case SendStatus =>
         st == [] && AfterWait(s, fired) && (s.childStopped <==> s.serverStatus == WasStopped)
       case ReadRequest =>
         && st == [StatusWord(s.serverPid, s.serverStatus)]
         && AfterWait(s, fired) && (s.childStopped <==> s.serverStatus == WasStopped)
       case _ => false
  }

  predicate Inv(s: State) {
    && s.procs.Keys <= {s.serverPid} && s.serverPid < s.nextPid && 0 < s.nextPid
    && (s.serverPid in s.procs ==> 0 < s.serverPid && s.procs[s.serverPid] != Zombie(WasStopped))
    && !s.badCont && !s.strayKill
    && (match s.fpc
        case Idle =>
          && s.spc == ReadRequest && s.ctl == [] && s.st == [] && !s.armed && AfterWait(s, s.prevTimedOut)
        case WaitPid =>
          && !s.armed && !s.timedOut
          && if s.ctl != []
             then |s.ctl| == 1 && s.spc == ReadRequest && s.st == [] && AfterWait(s, s.ctl[0])
             else if s.st == [] then Preparing(s)
             else s.st[0] == PidWord(s.serverPid) && Watching(s, s.st[1..], false)
        case Arm =>
          && s.ctl == [] && !s.armed && !s.timedOut && s.childPid == s.serverPid && Watching(s, s.st, false)
        case WaitStatus =>
          && s.ctl == [] && s.childPid == s.serverPid && Watching(s, s.st, s.timedOut) && (s.armed || s.timedOut)
        case ClearPid =>
          && s.spc == ReadRequest && s.ctl == [] && s.st == [] && AfterWait(s, s.timedOut)
          && s.childPid == s.serverPid && (s.childStopped <==> s.status == WasStopped)
        case Disarm =>
          && s.spc == ReadRequest && s.ctl == [] && s.st == [] && AfterWait(s, s.timedOut)
          && s.childPid == if s.childStopped then s.serverPid else 0
        case Record =>
          && s.spc == ReadRequest && s.ctl == [] && s.st == [] && AfterWait(s, s.timedOut) && !s.armed
        case Confused => false)
  }

  /** Each request is answered by one pid and then one status, of the same child. */
  predicate Answered(s: State) {
    match s.fpc
    case WaitPid => s.statusLog == s.pidLog && s.requests == |s.pidLog| + 1
    case Arm => s.pidLog == s.statusLog + [s.serverPid] && s.requests == |s.pidLog|
    case WaitStatus => s.pidLog == s.statusLog + [s.serverPid] && s.requests == |s.pidLog|
    case _ => s.statusLog == s.pidLog && s.requests == |s.pidLog|
  }

  predicate Good(s: State) {
    Inv(s) && Answered(s)
  }

  /** The target runs for the current request, or has run and its status is still to be read. */
  predicate Begun(s: State) {
    match s.fpc
    case WaitPid => s.ctl == [] && s.spc != ReapOld && s.spc != Start
    case Arm => true
    case WaitStatus => true
    case _ => false
  }

  function FateOf(p: Process): Fate {
    match p
    case Running => Unfinished
    case Stopped(_) => Ended(WasStopped)
    case Zombie(x) => Ended(x)
  }

  /** The run under way: until the server has waited for it, the process tells; then `serverStatus` does. */
  predicate Current(s: State, r: Run) {
    && r.pid == s.serverPid
    && if s.spc == SendPid || s.spc == WaitChild
       then s.serverPid in s.procs && r.fate == FateOf(s.procs[s.serverPid])
       else r.fate == Ended(s.serverStatus)
  }

  /** The k-th status that was read is the end of the k-th run, and of the pid it came with. */
  predicate Matched(runs: seq<Run>, statusLog: seq<nat>, statuses: seq<Status>) {
    && |statusLog| == |statuses| <= |runs|
    && forall k :: 0 <= k < |statuses| ==> runs[k] == Run(statusLog[k], Ended(statuses[k]))
  }

  predicate Fates(s: State) {
    && Matched(s.runs, s.statusLog, s.statuses)
    && |s.runs| == |s.statuses| + (if Begun(s) then 1 else 0)
    && (Begun(s) ==> Current(s, s.runs[|s.runs| - 1]))
    && (s.statuses != [] ==> s.status == s.statuses[|s.statuses| - 1])
    && (s.fpc != Idle ==> 0 < s.requests)
  }

  lemma FuzzerReadKeeps(s: State)
    requires Good(s) && FuzzerEnabled(s) && (s.fpc == WaitPid || s.fpc == WaitStatus)
    ensures Good(FuzzerNext(s))
  {
  }

  lemma FuzzerOtherKeeps(s: State)
    requires Good(s) && FuzzerEnabled(s) && s.fpc != WaitPid && s.fpc != WaitStatus
    ensures Good(FuzzerNext(s))
  {
  }

  lemma ServerReadKeeps(s: State)
    requires Good(s) && ServerEnabled(s) && s.spc == ReadRequest
    ensures Good(ServerNext(s))
  {
  }

  /** Until it has sent the pid, the server is at work on a request the fuzzer waits for. */
  lemma WherePreparing(s: State)
    requires Inv(s) && (s.spc == ReapOld || s.spc == Start || s.spc == SendPid)
    ensures s.fpc == WaitPid && s.ctl == [] && s.st == [] && Preparing(s)
  {
  }

  lemma ServerReapKeeps(s: State)
    requires Good(s) && ServerEnabled(s) && s.spc == ReapOld
    ensures Good(ServerNext(s))
  {
    WherePreparing(s);
    assert s.procs - {s.serverPid} == map[];
  }

  lemma ServerForkKeeps(s: State)
    requires Good(s) && ServerEnabled(s) && s.spc == Start && !s.childStopped
    ensures Good(ServerNext(s))
  {
    WherePreparing(s);
  }

  lemma ServerResumeKeeps(s: State)
    requires Good(s) && ServerEnabled(s) && s.spc == Start && s.childStopped
    ensures Good(ServerNext(s))
  {
    WherePreparing(s);
  }

  lemma ServerWaitKeeps(s: State)
    requires Good(s) && ServerEnabled(s) && s.spc == WaitChild
    ensures Good(ServerNext(s))
  {
    WhereWatching(s);
    if s.procs[s.serverPid].Zombie? {
      ServerReapsChild(s);
    } else {
      ServerSeesStop(s);
    }
  }

  lemma WhereWatching(s: State)
    requires Inv(s) && (s.spc == WaitChild || s.spc == SendStatus)
    ensures s.ctl == [] && (s.fpc == WaitPid || s.fpc == Arm || s.fpc == WaitStatus) && s.serverPid < s.nextPid
    ensures s.fpc == WaitPid ==> !s.timedOut && s.st == [PidWord(s.serverPid)]
    ensures s.fpc != WaitPid ==> s.st == []
    ensures Watching(s, [], s.timedOut)
  {
    hide AfterWait;
    assert s.fpc == WaitPid ==> s.st == [s.st[0]] + s.st[1..];
  }

  lemma ServerReapsChild(s: State)
    requires Good(s) && ServerEnabled(s) && s.spc == WaitChild && s.serverPid in s.procs && s.procs[s.serverPid].Zombie?
    ensures Good(ServerNext(s))
  {
    WhereWatching(s);
    assert s.procs - {s.serverPid} == map[];
  }

  lemma ServerSeesStop(s: State)
    requires Good(s) && ServerEnabled(s) && s.spc == WaitChild && s.serverPid in s.procs &&
        !s.procs[s.serverPid].Zombie?
    ensures Good(ServerNext(s))
  {
    WhereWatching(s);
  }

  lemma ServerSendPidKeeps(s: State)
    requires Good(s) && ServerEnabled(s) && s.spc == SendPid
    ensures Good(ServerNext(s))
  {
    WherePreparing(s);
  }

  lemma ServerSendStatusKeeps(s: State)
    requires Good(s) && ServerEnabled(s) && s.spc == SendStatus
    ensures Good(ServerNext(s))
  {
    WhereWatching(s);
  }

  lemma ChildKeeps(s: State, a: Action, pid: nat)
    requires Good(s) && Enabled(s, a, pid) && ByChild(a)
    ensures Good(Next(s, a, pid))
  {
  }

  /** While the fuzzer waits for the status. */
  lemma TimerKillsWatched(s: State)
    requires Good(s) && s.armed && s.fpc == WaitStatus
    ensures Good(Next(s, TimerFires, 0))
  {
  }

  /** After it has read the status: the child is gone, or stopped and still to be reported. */
  lemma TimerKillsAnswered(s: State)
    requires Good(s) && s.armed && s.fpc != WaitStatus
    ensures Good(Next(s, TimerFires, 0))
  {
    assert s.fpc == ClearPid || s.fpc == Disarm;
    assert s.childPid == 0 || s.childPid == s.serverPid;
    hide Watching, Preparing;
  }

  lemma TimerKeeps(s: State)
    requires Good(s) && s.armed
    ensures Good(Next(s, TimerFires, 0))
  {
    hide Good, Next;
    if s.fpc == WaitStatus {
      TimerKillsWatched(s);
    } else {
      TimerKillsAnswered(s);
    }
  }

  lemma InitHolds(s: State)
    requires Init(s)
    ensures Good(s) && Fates(s)
  {
  }

  lemma StepKeeps(s: State, a: Action, pid: nat)
    requires Good(s) && Enabled(s, a, pid)
    ensures Good(Next(s, a, pid))
  {
    hide Good;
    match a
    case FuzzerStep =>
      if s.fpc == WaitPid || s.fpc == WaitStatus {
        FuzzerReadKeeps(s);
      } else {
        FuzzerOtherKeeps(s);
      }
    case ServerStep =>
      match s.spc {
        case ReadRequest => ServerReadKeeps(s);
        case WaitChild => ServerWaitKeeps(s);
        case ReapOld => ServerReapKeeps(s);
        case Start =>
          if s.childStopped {
            ServerResumeKeeps(s);
          } else {
            ServerForkKeeps(s);
          }
        case SendPid => ServerSendPidKeeps(s);
        case _ => ServerSendStatusKeeps(s);
      }
    case TimerFires => TimerKeeps(s);
    case _ => ChildKeeps(s, a, pid);
  }

  lemma MatchedMore(runs: seq<Run>, statusLog: seq<nat>, statuses: seq<Status>, pid: nat, x: Status)
    requires Matched(runs, statusLog, statuses)
    requires |runs| == |statuses| + 1 && runs[|statuses|] == Run(pid, Ended(x))
    ensures Matched(runs, statusLog + [pid], statuses + [x])
  {
  }

  lemma MatchedNote(runs: seq<Run>, statusLog: seq<nat>, statuses: seq<Status>, pid: nat, x: Status)
    requires Matched(runs, statusLog, statuses) && |statuses| < |runs|
    ensures Matched(Note(runs, pid, x), statusLog, statuses) && |Note(runs, pid, x)| == |runs|
  {
  }

  /** The word the fuzzer reads as the status is the end of the run under way. */
  lemma StatusRead(s: State)
    requires Good(s) && Fates(s) && FuzzerEnabled(s) && s.fpc == WaitStatus
    ensures s.st == [StatusWord(s.serverPid, s.serverStatus)] && s.spc == ReadRequest
    ensures |s.runs| == |s.statuses| + 1 && s.runs[|s.statuses|] == Run(s.serverPid, Ended(s.serverStatus))
  {
    hide AfterWait, Matched, Answered, Preparing;
  }

  lemma FuzzerReadFates(s: State)
    requires Good(s) && Fates(s) && FuzzerEnabled(s) && s.fpc == WaitStatus
    ensures Fates(FuzzerNext(s))
  {
    hide Inv, Answered, Matched, Current;
    StatusRead(s);
    MatchedMore(s.runs, s.statusLog, s.statuses, s.serverPid, s.serverStatus);
  }

  /** When the fuzzer reads the pid, or anything else is read or written but the status. */
  lemma FuzzerOtherFates(s: State)
    requires Good(s) && Fates(s) && FuzzerEnabled(s) && s.fpc != WaitStatus
    ensures Fates(FuzzerNext(s))
  {
    hide AfterWait, Matched, Answered;
    if s.fpc == WaitPid {
      PidRead(s);
    }
  }

  lemma PidRead(s: State)
    requires Good(s) && FuzzerEnabled(s) && s.fpc == WaitPid
    ensures s.ctl == [] && s.spc != ReapOld && s.spc != Start && s.st[0].PidWord?
  {
    hide AfterWait, Answered;
  }

  lemma ServerReadFates(s: State)
    requires Good(s) && Fates(s) && ServerEnabled(s) && s.spc == ReadRequest
    ensures Fates(ServerNext(s))
  {
    hide AfterWait, Watching, Matched, Answered;
    assert |s.ctl| == 1;
  }

  /** A run begins. */
  lemma ServerStartFates(s: State)
    requires Good(s) && Fates(s) && ServerEnabled(s) && s.spc == Start
    ensures Fates(ServerNext(s))
  {
    hide Inv, Answered;
    WherePreparing(s);
  }

  lemma ServerPrepareFates(s: State)
    requires Good(s) && Fates(s) && ServerEnabled(s) && (s.spc == ReapOld || s.spc == SendPid)
    ensures Fates(ServerNext(s))
  {
    hide Inv, Answered, Matched;
    WherePreparing(s);
  }

  lemma WhereWaiting(s: State)
    requires Good(s) && s.spc == WaitChild
    ensures Begun(s) && s.serverPid in s.procs
  {
    hide Inv, AfterWait, Answered;
    WhereWatching(s);
  }

  /** The status `waitpid` returns is what the process tells. */
  lemma ServerWaits(s: State)
    requires ServerEnabled(s) && s.spc == WaitChild && s.serverPid in s.procs
    ensures var t := ServerNext(s);
            && FateOf(s.procs[s.serverPid]) == Ended(t.serverStatus)
            && t == s.(procs := t.procs, serverStatus := t.serverStatus, childStopped := t.childStopped,
                       spc := SendStatus)
  {
  }

  lemma ServerWaitFates(s: State)
    requires Good(s) && Fates(s) && ServerEnabled(s) && s.spc == WaitChild
    ensures Fates(ServerNext(s))
  {
    hide Good, Matched, ServerNext, FateOf;
    WhereWaiting(s);
    ServerWaits(s);
  }

  lemma ServerSendFates(s: State)
    requires Good(s) && Fates(s) && ServerEnabled(s) && s.spc == SendStatus
    ensures Fates(ServerNext(s))
  {
    hide Inv, Answered, Matched, AfterWait;
    WhereWatching(s);
  }

  /** A process that runs, or has stopped unreported, is that of the run under way. */
  lemma WhereKillable(s: State, pid: nat)
    requires Good(s) && Killable(s.procs, pid)
    ensures Begun(s) && (s.spc == SendPid || s.spc == WaitChild) && pid == s.serverPid
  {
    hide Answered;
    assert pid in s.procs.Keys;
  }

  lemma ChildFates(s: State, a: Action, pid: nat)
    requires Good(s) && Fates(s) && Enabled(s, a, pid) && ByChild(a)
    ensures Fates(Next(s, a, pid))
  {
    hide Good, Matched;
    WhereKillable(s, pid);
    MatchedNote(s.runs, s.statusLog, s.statuses, pid, if a.ChildStops? then WasStopped else a.status);
  }

  /** The timer ends the run under way, if that has not ended yet. */
  lemma TimerFates(s: State)
    requires Good(s) && Fates(s) && s.armed
    ensures Fates(Next(s, TimerFires, 0))
  {
    hide Good, Matched, Fates;
    if s.childPid != 0 && Killable(s.procs, s.childPid) {
      WhereKillable(s, s.childPid);
      TimerEndsRun(s);
    } else {
      if s.childPid != 0 {
        KillsNoRun(s);
      }
      SameFates(s, Next(s, TimerFires, 0));
    }
  }

  lemma TimerEndsRun(s: State)
    requires Fates(s) && s.armed && s.childPid != 0 && Killable(s.procs, s.childPid)
    requires Begun(s) && (s.spc == SendPid || s.spc == WaitChild) && s.childPid == s.serverPid
    ensures Fates(Next(s, TimerFires, 0))
  {
    hide Matched;
    MatchedNote(s.runs, s.statusLog, s.statuses, s.childPid, KilledBySignal);
  }

  /** A process that cannot be killed any more is left as it is, or its run has had its end. */
  lemma KillsNoRun(s: State)
    requires Good(s) && !Killable(s.procs, s.childPid)
    ensures Begun(s) && (s.spc == SendPid || s.spc == WaitChild) ==> Kill(s.procs, s.childPid) == s.procs
  {
    hide Answered, AfterWait;
  }

  lemma SameFates(s: State, t: State)
    requires Fates(s) && t.runs == s.runs && t.statusLog == s.statusLog && t.statuses == s.statuses
    requires t.requests == s.requests && t.fpc == s.fpc && t.spc == s.spc && t.ctl == s.ctl && t.status == s.status
    requires t.serverPid == s.serverPid && t.serverStatus == s.serverStatus
    requires Begun(s) && (s.spc == SendPid || s.spc == WaitChild) ==> t.procs == s.procs
    ensures Fates(t)
  {
    hide Matched, FateOf;
  }

  lemma StepFates(s: State, a: Action, pid: nat)
    requires Good(s) && Fates(s) && Enabled(s, a, pid)
    ensures Fates(Next(s, a, pid))
  {
    hide Good, Fates;
    match a
    case FuzzerStep =>
      if s.fpc == WaitStatus {
        FuzzerReadFates(s);
      } else {
        FuzzerOtherFates(s);
      }
    case ServerStep =>
      match s.spc {
        case ReadRequest => ServerReadFates(s);
        case Start => ServerStartFates(s);
        case ReapOld => ServerPrepareFates(s);
        case SendPid => ServerPrepareFates(s);
        case WaitChild => ServerWaitFates(s);
        case _ => ServerSendFates(s);
      }
    case TimerFires => TimerFates(s);
    case _ => ChildFates(s, a, pid);
  }

  /** The invariant holds in every state of every run, whatever the interleaving. */
  lemma {:induction false} EveryRun(states: seq<State>, i: nat)
    requires IsRun(states) && i < |states|
    ensures Good(states[i]) && Fates(states[i])
  {
    if i == 0 {
      InitHolds(states[0]);
    } else {
      EveryRun(states, i - 1);
      var s := states[i - 1];
      assert Follows(s, states[i]);
      var a, pid :| Enabled(s, a, pid) && states[i] == Next(s, a, pid);
      StepKeeps(s, a, pid);
      StepFates(s, a, pid);
    }
  }

  /** What that means: at most one child is unreaped; every word is taken for what it is; no `waitpid` of
      the server fails; SIGCONT only ever goes to a live stopped child; SIGKILL never hits another process;
      the k-th status read belongs to the k-th pid read, and requests and answers alternate. */
  lemma Safety(states: seq<State>, i: nat)
    requires IsRun(states) && i < |states|
    ensures var s := states[i];
            && |s.procs| <= 1
            && s.fpc != Confused && s.spc != Exited
            && !s.badCont && !s.strayKill
            && |s.statusLog| <= |s.pidLog| <= s.requests <= |s.statusLog| + 1
            && forall k :: 0 <= k < |s.statusLog| ==> s.statusLog[k] == s.pidLog[k]
  {
    EveryRun(states, i);
    var s := states[i];
    assert |s.procs.Keys| <= 1 by {
      if s.serverPid in s.procs {
        assert s.procs.Keys == {s.serverPid};
      } else {
        assert s.procs.Keys == {};
      }
    }
  }

  /** The relay is faithful: the k-th status the fuzzer reads is how the k-th run of a target ended, be it
      on its own, by a stop the server waited for, or by the timer; it comes with the pid of that run; and
      once the answer is read, `status` is the end of the latest run. */
  lemma StatusIsFate(states: seq<State>, i: nat)
    requires IsRun(states) && i < |states|
    ensures var s := states[i];
            && |s.statuses| == |s.statusLog| <= |s.pidLog| && |s.statuses| <= |s.runs| <= |s.statuses| + 1
            && (forall k :: 0 <= k < |s.statuses| ==> s.runs[k] == Run(s.pidLog[k], Ended(s.statuses[k])))
            && (s.fpc == ClearPid || s.fpc == Disarm || s.fpc == Record || (s.fpc == Idle && s.requests > 0) ==>
                s.runs != [] && s.runs[|s.runs| - 1].fate == Ended(s.status))
  {
    EveryRun(states, i);
    hide Inv;
    var s := states[i];
    assert forall k :: 0 <= k < |s.statusLog| ==> s.pidLog[k] == s.statusLog[k];
  }

  /** A child killed after it stopped is always reported: whenever a request reaches a server that holds a
      stopped child, its `was_killed` says exactly whether that child is dead.  So the write-off `waitpid`
      never blocks on a live process and a live one is never written off. */
  lemma KillIsReported(states: seq<State>, i: nat)
    requires IsRun(states) && i < |states|
    requires states[i].ctl != [] && states[i].childStopped
    ensures var s := states[i];
            && s.spc == ReadRequest && s.serverPid in s.procs
            && s.procs[s.serverPid] == if s.ctl[0] then Zombie(KilledBySignal) else Stopped(true)
  {
    EveryRun(states, i);
  }

  /** No deadlock, and no reliance on the child: in every reachable state the fuzzer, the server or the
      timer can move. */
  lemma Progress(states: seq<State>, i: nat)
    requires IsRun(states) && i < |states|
    ensures FuzzerEnabled(states[i]) || ServerEnabled(states[i]) || states[i].armed
  {
    EveryRun(states, i);
  }

  // ----- every request is answered -----

  function FuzzerRank(s: State): nat {
    match s.fpc
    case Record => 1
    case Disarm => 2
    case ClearPid => 3
    case WaitStatus => 4
    case Arm => 6
    case WaitPid => 7
    case _ => 0
  }

  function ServerRank(s: State): nat {
    match s.spc
    case ReadRequest => if s.ctl == [] then 0 else 6
    case ReapOld => 5
    case Start => 4
    case SendPid => 3
    case WaitChild => 2
    case SendStatus => 1
    case Exited => 0
  }

  /** A bound on the steps the fuzzer, the server and the timer still take for the current request. */
  function Rank(s: State): nat {
    FuzzerRank(s) + ServerRank(s) + (if s.armed then 1 else 0)
  }

  lemma FuzzerRankFalls(s: State)
    requires Good(s) && s.fpc != Idle && FuzzerEnabled(s)
    ensures Rank(FuzzerNext(s)) < Rank(s)
  {
    hide Answered, Preparing, AfterWait;
  }

  lemma ServerRankFalls(s: State)
    requires Good(s) && ServerEnabled(s)
    ensures Rank(ServerNext(s)) < Rank(s)
  {
    if s.spc == ReadRequest {
      assert s.ctl[1..] == [];
    } else if s.spc == WaitChild || s.spc == SendStatus {
      WhereWatching(s);
    } else {
      WherePreparing(s);
    }
    hide Answered, Inv;
  }

  lemma RankFalls(s: State, a: Action, pid: nat)
    requires Good(s) && s.fpc != Idle && Enabled(s, a, pid)
    ensures if ByChild(a) then Rank(Next(s, a, pid)) == Rank(s) else Rank(Next(s, a, pid)) < Rank(s)
  {
    hide Good, FuzzerNext, ServerNext, Rank, Enabled;
    match a
    case FuzzerStep => FuzzerTurn(s, pid);
    case ServerStep => ServerTurn(s, pid);
    case _ => OthersRank(s, a, pid);
  }

  lemma FuzzerTurn(s: State, pid: nat)
    requires Good(s) && s.fpc != Idle && Enabled(s, FuzzerStep, pid)
    ensures Rank(Next(s, FuzzerStep, pid)) < Rank(s)
  {
    hide Good, FuzzerNext, Rank;
    FuzzerRankFalls(s);
  }

  lemma ServerTurn(s: State, pid: nat)
    requires Good(s) && Enabled(s, ServerStep, pid)
    ensures Rank(Next(s, ServerStep, pid)) < Rank(s)
  {
    hide Good, ServerNext, Rank;
    ServerRankFalls(s);
  }

  lemma OthersRank(s: State, a: Action, pid: nat)
    requires Enabled(s, a, pid) && !a.FuzzerStep? && !a.ServerStep?
    ensures Rank(Next(s, a, pid)) == Rank(s) - if ByChild(a) then 0 else 1
  {
    hide Kill, Killable, Note, FuzzerRank, ServerRank;
    SameRank(s, Next(s, a, pid));
  }

  lemma SameRank(s: State, t: State)
    requires t.fpc == s.fpc && t.spc == s.spc && t.ctl == s.ctl
    ensures FuzzerRank(t) == FuzzerRank(s) && ServerRank(t) == ServerRank(s)
  {
  }

  function PartySteps(acts: seq<Action>): nat {
    if acts == [] then 0 else PartySteps(acts[..|acts| - 1]) + (if ByChild(acts[|acts| - 1]) then 0 else 1)
  }

  /** From the request on, the fuzzer, the server and the timer together take at most 13 steps before the
      fuzzer is idle again, whatever the child does in between. */
  lemma {:induction false} RequestCompletes(states: seq<State>, acts: seq<Action>, pids: seq<nat>)
    requires |states| == |acts| + 1 == |pids| + 1
    requires Good(states[0]) && states[0].fpc == WaitPid
    requires forall k :: 0 <= k < |acts| ==> Enabled(states[k], acts[k], pids[k])
    requires forall k :: 0 <= k < |acts| ==> states[k + 1] == Next(states[k], acts[k], pids[k])
    requires forall k :: 0 <= k < |acts| ==> states[k].fpc != Idle
    ensures Good(states[|acts|]) && PartySteps(acts) + Rank(states[|acts|]) <= Rank(states[0]) <= 13
  {
    if acts != [] {
      var n := |acts| - 1;
      RequestCompletes(states[..n + 1], acts[..n], pids[..n]);
      StepKeeps(states[n], acts[n], pids[n]);
      RankFalls(states[n], acts[n], pids[n]);
    }
  }
}
