/** The request/acknowledge channel: `CommandRegion` (shm.rs), `poll_and_apply_commands` (control.rs)
    and the client's `send_command` / `wait_for_ack`, interleaved a memory access at a time. */
module CommandChannel {
  const WRAP: nat := 0x1_0000_0000

  /** The command's words in shared memory: kind, motor id, and four payload slots. */
  const FIELDS: nat := 6

  type Word = int

  datatype Applied = Applied(fields: seq<Word>, status: nat)

  /** A status the client read, and which of its commands it was reading it for. */
  datatype Heard = Heard(command: int, status: nat)

  /** Where the client is: not waiting, waiting for the ack of `ticket`, or about to read the status
      of an acknowledged command. */
  datatype Client = Free | Waiting(ticket: nat) | SeenAck

  /** Where the daemon is in one poll, with its locals. */
  datatype Daemon =
    | Between
    | LoadedCmd(cmd: nat)
    | Copying(cmd: nat, got: map<nat, Word>)
    | Ran(cmd: nat, result: Applied)
    | StatusStored(cmd: nat, result: Applied)
    | AckStored(result: Applied)

  /** The region's atomics and words, both parties, and four logs: commands submitted, commands run,
      values returned to the daemon's caller, statuses read by the client. */
  datatype State = State(
    cmdSeq: nat, ackSeq: nat, status: nat, words: seq<Word>,
    client: Client, daemon: Daemon,
    submitted: seq<seq<Word>>, applied: seq<Applied>, returned: seq<Applied>, heard: seq<Heard>)

  function Init(): State {
    State(0, 0, 0, seq(FIELDS, _ => 0), Free, Between, [], [], [], [])
  }

  /** One atomic access. Running a command yields whatever status the bus gives it. */
  datatype Action =
    | ClientStores(index: nat, word: Word) | ClientSubmits(ticket: nat) | ClientPolls
    | ClientReadsStatus | ClientTimesOut
    | DaemonLoadsCmd | DaemonLoadsAck | DaemonCopies(index: nat) | DaemonRuns(status: nat)
    | DaemonStoresStatus | DaemonStoresAck | DaemonReturns

  /** Any client may give up waiting, as the shipped one does after two seconds. A `guarded` client
      looks before it writes: it stores fields, or submits, only once `ack_seq` equals `cmd_seq`. Only
      the client can make the two differ again, so the look and the write need not be one step. */
  predicate Enabled(s: State, a: Action, guarded: bool) {
    match a
    case ClientStores(i, _) => s.client.Free? && i < |s.words| && (guarded ==> Acknowledged(s))
    case ClientSubmits(ticket) =>
      s.client.Free? && ticket != s.cmdSeq && ticket < WRAP && (guarded ==> Acknowledged(s))
    case ClientPolls => s.client.Waiting?
    case ClientReadsStatus => s.client.SeenAck?
    case ClientTimesOut => s.client.Waiting?
    case DaemonLoadsCmd => s.daemon.Between?
    case DaemonLoadsAck => s.daemon.LoadedCmd?
    case DaemonCopies(i) => s.daemon.Copying? && i < |s.words|
    case DaemonRuns(_) => s.daemon.Copying? && forall i | 0 <= i < |s.words| :: i in s.daemon.got
    case DaemonStoresStatus => s.daemon.Ran?
    case DaemonStoresAck => s.daemon.StatusStored?
    case DaemonReturns => s.daemon.AckStored?
  }

  /** What the client can see: no command is outstanding. */
  predicate Acknowledged(s: State) {
    s.cmdSeq == s.ackSeq
  }

  function Apply(s: State, a: Action): State
    requires Enabled(s, a, false)
  {
    match a
    case ClientStores(i, w) => s.(words := s.words[i := w])
    case ClientSubmits(ticket) =>
      s.(cmdSeq := ticket, client := Waiting(ticket), submitted := s.submitted + [s.words])
    case ClientPolls => if s.ackSeq == s.client.ticket then s.(client := SeenAck) else s
    case ClientReadsStatus => s.(client := Free, heard := s.heard + [Heard(|s.submitted| - 1, s.status)])
    case ClientTimesOut => s.(client := Free)
    case DaemonLoadsCmd => s.(daemon := LoadedCmd(s.cmdSeq))
    case DaemonLoadsAck =>
      s.(daemon := if s.daemon.cmd == s.ackSeq then Between else Copying(s.daemon.cmd, map[]))
    case DaemonCopies(i) => s.(daemon := Copying(s.daemon.cmd, s.daemon.got[i := s.words[i]]))
    case DaemonRuns(status) =>
      var run := Applied(seq(|s.words|, i requires 0 <= i < |s.words| => s.daemon.got[i]), status);
      s.(daemon := Ran(s.daemon.cmd, run), applied := s.applied + [run])
    case DaemonStoresStatus =>
      s.(status := s.daemon.result.status, daemon := StatusStored(s.daemon.cmd, s.daemon.result))
    case DaemonStoresAck => s.(ackSeq := s.daemon.cmd, daemon := AckStored(s.daemon.result))
    case DaemonReturns => s.(daemon := Between, returned := s.returned + [s.daemon.result])
  }

  ghost predicate IsRunFrom(start: State, guarded: bool, actions: seq<Action>, states: seq<State>) {
    && |states| == |actions| + 1 && states[0] == start
    && forall i | 0 <= i < |actions| ::
         Enabled(states[i], actions[i], guarded) && states[i + 1] == Apply(states[i], actions[i])
  }

  ghost predicate IsRun(guarded: bool, actions: seq<Action>, states: seq<State>) {
    IsRunFrom(Init(), guarded, actions, states)
  }

  /** The daemon has run the pending command and not yet acknowledged it. */
  ghost predicate Unacknowledged(s: State) {
    s.daemon.Ran? || s.daemon.StatusStored?
  }

  ghost predicate ClientInv(s: State) {
    && (s.client.Waiting? ==> s.client.ticket == s.cmdSeq && s.submitted != [])
    && (s.client.SeenAck? ==> Acknowledged(s) && s.submitted != [])
    && (!Acknowledged(s) ==> s.submitted != [] && s.words == s.submitted[|s.submitted| - 1])
  }

  ghost predicate DaemonInv(s: State) {
    && |s.words| == FIELDS
    && (s.daemon.LoadedCmd? ==> s.daemon.cmd == s.ackSeq || (!Acknowledged(s) && s.daemon.cmd == s.cmdSeq))
    && (s.daemon.Copying? ==>
          && !Acknowledged(s) && s.daemon.cmd == s.cmdSeq
          && forall i | i in s.daemon.got && i < |s.words| :: s.daemon.got[i] == s.words[i])
    && (Unacknowledged(s) ==>
          && !Acknowledged(s) && s.daemon.cmd == s.cmdSeq
          && s.applied != [] && s.applied[|s.applied| - 1] == s.daemon.result
          && (s.daemon.StatusStored? ==> s.status == s.daemon.result.status))
    && (s.daemon.AckStored? ==> s.applied != [] && s.applied[|s.applied| - 1] == s.daemon.result)
  }

  /** The status is the one its command was run with. */
  ghost predicate HeardItsOwn(s: State, h: Heard) {
    0 <= h.command < |s.applied| && h.status == s.applied[h.command].status
  }

  /** The logs agree: what was run is what was submitted, in order, once each. */
  ghost predicate LogInv(s: State) {
    && |s.submitted| == |s.applied| + (if !Acknowledged(s) && !Unacknowledged(s) then 1 else 0)
    && (forall k | 0 <= k < |s.applied| :: s.applied[k].fields == s.submitted[k])
    && (forall k | 0 <= k < |s.heard| :: HeardItsOwn(s, s.heard[k]))
    && (Acknowledged(s) && s.applied != [] ==> s.status == s.applied[|s.applied| - 1].status)
    && |s.returned| == |s.applied| - (if Unacknowledged(s) || s.daemon.AckStored? then 1 else 0)
    && (forall k | 0 <= k < |s.returned| :: s.returned[k] == s.applied[k])
  }

  ghost predicate Inv(s: State) {
    ClientInv(s) && DaemonInv(s) && LogInv(s)
  }

  lemma StepKeepsTheParties(s: State, a: Action)
    requires Inv(s) && Enabled(s, a, true)
    ensures ClientInv(Apply(s, a)) && DaemonInv(Apply(s, a))
  {
  }

  predicate ByTheClient(a: Action) {
    a.ClientStores? || a.ClientSubmits? || a.ClientPolls? || a.ClientReadsStatus? || a.ClientTimesOut?
  }

  lemma ClientKeepsTheLogs(s: State, a: Action)
    requires Inv(s) && Enabled(s, a, true) && ByTheClient(a)
    ensures LogInv(Apply(s, a))
  {
    var t := Apply(s, a);
    forall k | 0 <= k < |t.heard|
      ensures HeardItsOwn(t, t.heard[k])
    {
      assert k < |s.heard| ==> HeardItsOwn(s, s.heard[k]);
    }
  }

  lemma DaemonKeepsTheLogs(s: State, a: Action)
    requires Inv(s) && Enabled(s, a, true) && !ByTheClient(a)
    ensures LogInv(Apply(s, a))
  {
    var t := Apply(s, a);
    if a.DaemonRuns? {
      assert t.applied[|s.applied|].fields == s.words;
    }
    forall k | 0 <= k < |t.heard|
      ensures HeardItsOwn(t, t.heard[k])
    {
      assert HeardItsOwn(s, s.heard[k]);
    }
  }

  lemma StepKeepsTheInvariant(s: State, a: Action)
    requires Inv(s) && Enabled(s, a, true)
    ensures Inv(Apply(s, a))
  {
    StepKeepsTheParties(s, a);
    if ByTheClient(a) { ClientKeepsTheLogs(s, a); } else { DaemonKeepsTheLogs(s, a); }
  }

  lemma {:induction false} RunKeepsTheInvariant(start: State, actions: seq<Action>, states: seq<State>, i: nat)
    requires Inv(start) && IsRunFrom(start, true, actions, states) && i <= |actions|
    ensures Inv(states[i])
  {
    if i > 0 {
      RunKeepsTheInvariant(start, actions, states, i - 1);
      var j := i - 1;
      assert Enabled(states[j], actions[j], true) && states[j + 1] == Apply(states[j], actions[j]);
      StepKeepsTheInvariant(states[j], actions[j]);
    }
  }

  /** Exactly once, over every interleaving with a client that looks before it writes, whether or not
      it ever gives up waiting: the commands run are the commands submitted, in order, fields intact,
      at most one behind; every status the client reads is that of the command it was waiting for;
      and what each poll hands back describes the command it ran, even though the client may already
      be writing the next one. */
  lemma CommandsAreAppliedExactlyOnce(actions: seq<Action>, states: seq<State>, i: nat)
    requires IsRun(true, actions, states) && i <= |actions|
    ensures var s := states[i];
            && |s.applied| <= |s.submitted| <= |s.applied| + 1
            && (forall k | 0 <= k < |s.applied| :: s.applied[k].fields == s.submitted[k])
            && (forall k | 0 <= k < |s.heard| :: HeardItsOwn(s, s.heard[k]))
            && |s.returned| <= |s.applied| <= |s.returned| + 1
            && (forall k | 0 <= k < |s.returned| :: s.returned[k] == s.applied[k])
    ensures var s := states[i];
            Acknowledged(s) ==>
              |s.applied| == |s.submitted| && (s.applied != [] ==> s.status == s.applied[|s.applied| - 1].status)
  {
    RunKeepsTheInvariant(Init(), actions, states, i);
  }

  // ---- without the guard the promise fails ----

  /** Every command run so far is one that was submitted, in order. */
  ghost predicate FieldsIntact(s: State) {
    |s.applied| <= |s.submitted| && forall k | 0 <= k < |s.applied| :: s.applied[k].fields == s.submitted[k]
  }

  /** A run leads from `s` to `t`. */
  ghost predicate Leads(s: State, t: State, guarded: bool) {
    exists actions, states :: IsRunFrom(s, guarded, actions, states) && states[|actions|] == t
  }

  lemma NothingLeads(s: State, guarded: bool)
    ensures Leads(s, s, guarded)
  {
    assert IsRunFrom(s, guarded, [], [s]);
  }

  lemma StepLeads(s: State, t: State, a: Action, guarded: bool)
    requires Leads(s, t, guarded) && Enabled(t, a, guarded)
    ensures Leads(s, Apply(t, a), guarded)
  {
    var actions, states :| IsRunFrom(s, guarded, actions, states) && states[|actions|] == t;
    assert IsRunFrom(s, guarded, actions + [a], states + [Apply(t, a)]);
  }

  /** The daemon may still read word `i` of the pending command: it has not started on it, or has not
      come to that word. */
  predicate StillToCopy(s: State, i: nat) {
    s.daemon.Between? || s.daemon.AckStored? || s.daemon.LoadedCmd? || (s.daemon.Copying? && i !in s.daemon.got)
  }

  /** The guard is exact. Whenever the daemon may still read the word, a store that changes it is
      harmless, whatever a guarded client and the daemon do next, if and only if no command is
      outstanding. Otherwise the daemon, left alone, runs a command nobody submitted. */
  lemma StoreIsSafeExactlyWhenAcknowledged(s: State, i: nat, word: Word)
    requires Leads(Init(), s, true) && s.client.Free? && StillToCopy(s, i) && i < |s.words| && word != s.words[i]
    ensures (forall t | Leads(Apply(s, ClientStores(i, word)), t, true) :: FieldsIntact(t)) <==> Acknowledged(s)
  {
    LeadsKeepsTheInvariant(Init(), s);
    var stored := Apply(s, ClientStores(i, word));
    if Acknowledged(s) {
      StepKeepsTheInvariant(s, ClientStores(i, word));
      forall t | Leads(stored, t, true)
        ensures FieldsIntact(t)
      {
        LeadsKeepsTheInvariant(stored, t);
      }
    } else {
      var t := RunsTheChangedWords(s, i, word);
      assert Leads(stored, t, true) && !FieldsIntact(t);
    }
  }

  /** Nor may it submit: while the daemon has not run the outstanding command, another submission puts
      the daemon two behind. */
  lemma SubmitIsSafeExactlyWhenAcknowledged(s: State, ticket: nat)
    requires Leads(Init(), s, true) && s.client.Free? && !Unacknowledged(s) && ticket != s.cmdSeq && ticket < WRAP
    ensures (forall t | Leads(Apply(s, ClientSubmits(ticket)), t, true) :: |t.submitted| <= |t.applied| + 1)
            <==> Acknowledged(s)
  {
    LeadsKeepsTheInvariant(Init(), s);
    var submitted := Apply(s, ClientSubmits(ticket));
    if Acknowledged(s) {
      StepKeepsTheInvariant(s, ClientSubmits(ticket));
      forall t | Leads(submitted, t, true)
        ensures |t.submitted| <= |t.applied| + 1
      {
        LeadsKeepsTheInvariant(submitted, t);
      }
    } else {
      NothingLeads(submitted, true);
    }
  }

  lemma LeadsKeepsTheInvariant(s: State, t: State)
    requires Inv(s) && Leads(s, t, true)
    ensures Inv(t)
  {
    var actions, states :| IsRunFrom(s, true, actions, states) && states[|actions|] == t;
    RunKeepsTheInvariant(s, actions, states, |actions|);
  }

  lemma RunsTheChangedWords(s: State, i: nat, word: Word) returns (t: State)
    requires Inv(s) && s.client.Free? && StillToCopy(s, i) && i < |s.words| && word != s.words[i]
    requires !Acknowledged(s)
    ensures Leads(Apply(s, ClientStores(i, word)), t, true)
    ensures |t.applied| == |s.applied| + 1 && t.submitted == s.submitted && |s.submitted| == |t.applied|
    ensures t.applied[|s.applied|].fields != t.submitted[|s.applied|]
  {
    var stored := Apply(s, ClientStores(i, word));
    NothingLeads(stored, true);
    var copying := StartsCopying(stored, stored, true);
    var copied := CopiesTheRest(stored, copying, 0, true);
    assert copied.daemon.got[i] == word;
    StepLeads(stored, copied, DaemonRuns(0), true);
    t := Apply(copied, DaemonRuns(0));
    assert t.applied[|s.applied|].fields[i] == word && s.submitted[|s.applied|][i] == s.words[i];
  }

  /** Left alone with a pending command, a daemon that has not run it gets to copying it. */
  lemma StartsCopying(from: State, s: State, guarded: bool) returns (t: State)
    requires Leads(from, s, guarded) && !Acknowledged(s)
    requires s.daemon.Between? || s.daemon.AckStored? || s.daemon.LoadedCmd? || s.daemon.Copying?
    ensures Leads(from, t, guarded) && t == s.(daemon := t.daemon, returned := t.returned) && t.daemon.Copying?
    ensures if s.daemon.Copying? then t == s else t.daemon.got == map[]
    ensures s.daemon.Between? ==> t.daemon.cmd == s.cmdSeq
    ensures !s.daemon.AckStored? ==> t.returned == s.returned
  {
    t := s;
    if t.daemon.AckStored? {
      StepLeads(from, t, DaemonReturns, guarded);
      t := Apply(t, DaemonReturns);
    }
    if t.daemon.LoadedCmd? {
      StepLeads(from, t, DaemonLoadsAck, guarded);
      t := Apply(t, DaemonLoadsAck);
    }
    if t.daemon.Between? {
      StepLeads(from, t, DaemonLoadsCmd, guarded);
      t := Apply(t, DaemonLoadsCmd);
      StepLeads(from, t, DaemonLoadsAck, guarded);
      t := Apply(t, DaemonLoadsAck);
    }
  }

  /** It copies each word it has not copied yet, as it stands now. */
  lemma {:induction false} CopiesTheRest(from: State, s: State, i: nat, guarded: bool) returns (t: State)
    requires Leads(from, s, guarded) && s.daemon.Copying? && i <= |s.words|
    requires forall k: nat | k < i :: k in s.daemon.got
    ensures Leads(from, t, guarded) && t.daemon.Copying? && t == s.(daemon := t.daemon)
    ensures forall k: nat | k < |s.words| ::
              k in t.daemon.got && t.daemon.got[k] == if k in s.daemon.got then s.daemon.got[k] else s.words[k]
    decreases |s.words| - i
  {
    if i == |s.words| {
      t := s;
    } else if i in s.daemon.got {
      t := CopiesTheRest(from, s, i + 1, guarded);
    } else {
      StepLeads(from, s, DaemonCopies(i), guarded);
      t := CopiesTheRest(from, Apply(s, DaemonCopies(i)), i + 1, guarded);
    }
  }

  /** Nobody gets stuck: from any state in which the client waits, it and the daemon can go on, each
      finishing what it is at, until the command has been run with whatever status the bus gives it,
      its status heard, and nothing is outstanding. */
  lemma CommandCanBeAnswered(s: State, status: nat) returns (t: State)
    requires Leads(Init(), s, true) && s.client.Waiting?
    ensures Leads(s, t, true) && t.client.Free? && Acknowledged(t) && t.submitted == s.submitted
    ensures |t.applied| == |t.submitted| && t.heard == s.heard + [Heard(|s.submitted| - 1, t.status)]
    ensures |t.applied| > |s.applied| ==> t.status == status
  {
    LeadsKeepsTheInvariant(Init(), s);
    NothingLeads(s, true);
    t := s;
    if !Acknowledged(s) {
      var ran := s;
      if !Unacknowledged(s) {
        var copying := StartsCopying(s, s, true);
        var copied := CopiesTheRest(s, copying, 0, true);
        StepLeads(s, copied, DaemonRuns(status), true);
        ran := Apply(copied, DaemonRuns(status));
      }
      LeadsKeepsTheInvariant(s, ran);
      t := Acknowledges(s, ran);
    }
    LeadsKeepsTheInvariant(s, t);
    t := ClientHears(s, t);
  }

  /** A daemon that has run a command stores its status, then the ack. */
  lemma Acknowledges(from: State, s: State) returns (t: State)
    requires Leads(from, s, true) && Inv(s) && Unacknowledged(s)
    ensures Leads(from, t, true) && Acknowledged(t) && t.status == s.daemon.result.status
    ensures t == s.(status := t.status, ackSeq := t.ackSeq, daemon := t.daemon)
  {
    t := s;
    if t.daemon.Ran? {
      StepLeads(from, t, DaemonStoresStatus, true);
      t := Apply(t, DaemonStoresStatus);
    }
    StepLeads(from, t, DaemonStoresAck, true);
    t := Apply(t, DaemonStoresAck);
  }

  lemma ClientHears(from: State, s: State) returns (t: State)
    requires Leads(from, s, true) && Inv(s) && s.client.Waiting? && Acknowledged(s)
    ensures Leads(from, t, true)
    ensures t == s.(client := Free, heard := s.heard + [Heard(|s.submitted| - 1, s.status)])
  {
    StepLeads(from, s, ClientPolls, true);
    t := Apply(s, ClientPolls);
    StepLeads(from, t, ClientReadsStatus, true);
    t := Apply(t, ClientReadsStatus);
  }

  /** The shipped client does not look. It submits a command of zeros, gives up waiting while the
      daemon has copied one word of it, and writes a command whose first two words are 7: the daemon
      runs one that starts with 0 and 7. */
  lemma ImpatienceMixesCommands() returns (s: State)
    ensures Leads(Init(), s, false) && |s.applied| == 1 && |s.submitted| == 2
    ensures s.applied[0].fields !in s.submitted
  {
    var rewritten := RewrittenMidPoll();
    var copied := CopiesTheRest(Init(), rewritten, 0, false);
    StepLeads(Init(), copied, DaemonRuns(0), false);
    s := Apply(copied, DaemonRuns(0));
    assert s.applied[0].fields[0] == 0 && s.applied[0].fields[1] == 7;
    assert s.submitted[0][1] == 0 && s.submitted[1][0] == 7;
  }

  /** The client has given up and the daemon holds the first of command 1's words. */
  const WITHDRAWN: State :=
    State(1, 0, 0, [0, 0, 0, 0, 0, 0], Free, Copying(1, map[0 := 0]), [[0, 0, 0, 0, 0, 0]], [], [], [])

  lemma WithdrawnMidPoll()
    ensures Leads(Init(), WITHDRAWN, false)
  {
    NothingLeads(Init(), false);
    assert Init().words == [0, 0, 0, 0, 0, 0];
    StepLeads(Init(), Init(), ClientSubmits(1), false);
    var copying := StartsCopying(Init(), Apply(Init(), ClientSubmits(1)), false);
    StepLeads(Init(), copying, DaemonCopies(0), false);
    var half := Apply(copying, DaemonCopies(0));
    StepLeads(Init(), half, ClientTimesOut, false);
    assert Apply(half, ClientTimesOut) == WITHDRAWN;
  }

  /** And the region holds command 2 by now. */
  lemma RewrittenMidPoll() returns (s: State)
    ensures Leads(Init(), s, false) && s.daemon == Copying(1, map[0 := 0]) && s.words == [7, 7, 0, 0, 0, 0]
    ensures s.applied == [] && s.submitted == [[0, 0, 0, 0, 0, 0], [7, 7, 0, 0, 0, 0]]
  {
    WithdrawnMidPoll();
    StepLeads(Init(), WITHDRAWN, ClientStores(0, 7), false);
    var half := WITHDRAWN.(words := [7, 0, 0, 0, 0, 0]);
    assert Apply(WITHDRAWN, ClientStores(0, 7)) == half;
    StepLeads(Init(), half, ClientStores(1, 7), false);
    var filled := half.(words := [7, 7, 0, 0, 0, 0]);
    assert Apply(half, ClientStores(1, 7)) == filled;
    StepLeads(Init(), filled, ClientSubmits(2), false);
    s := Apply(filled, ClientSubmits(2));
  }
}
