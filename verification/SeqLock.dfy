/** The seqlock of shm.rs: one writer and one reader over shared words, interleaved a memory access
    at a time (sequential consistency, which is what the fences are there to give). */
module SeqLock {
  const WRAP: nat := 0x1_0000_0000
  const HALF_WRAP: nat := 0x8000_0000

  type Word = int

  /** Where the writer is in `seqlock_write`, with its local copy of `seq`. */
  datatype Writer = Away | Loaded(s: nat) | Writing(s: nat)

  /** Where the reader is in `seqlock_read`: `left` attempts to go; during an attempt, the loaded
      `s1`, the words copied so far, and how many writes had completed when the attempt began. */
  datatype Reader =
    | Out
    | Retry(left: nat)
    | Copying(left: nat, s1: nat, got: map<nat, Word>, began: nat)

  /** What one call returned. For a snapshot: the number of writes completed when its attempt began
      and how many more completed before it ended. */
  datatype Result = Exhausted | Snapshot(value: seq<Word>, began: nat, overtaken: int)

  /** `published[k]` is the record as the k-th completed write left it; entry 0 is the initial one. */
  datatype State = State(
    seqNo: nat, words: seq<Word>, writer: Writer, published: seq<seq<Word>>,
    reader: Reader, results: seq<Result>)

  function Init(record: seq<Word>): State {
    State(0, record, Away, [record], Out, [])
  }

  /** Writes completed so far. */
  function Completed(s: State): nat {
    if s.published == [] then 0 else |s.published| - 1
  }

  /** One atomic access. The writer's closure may store any words in any order, any number of times,
      and the reader's closure may copy them in any order. */
  datatype Action =
    | WriterLoads | WriterOpens | WriterStores(index: nat, word: Word) | WriterCloses
    | ReaderCalls(maxRetries: nat) | ReaderGivesUp | ReaderLoads | ReaderCopies(index: nat) | ReaderChecks

  predicate Enabled(s: State, a: Action) {
    match a
    case WriterLoads => s.writer.Away?
    case WriterOpens => s.writer.Loaded?
    case WriterStores(i, _) => s.writer.Writing? && i < |s.words|
    case WriterCloses => s.writer.Writing?
    case ReaderCalls(_) => s.reader.Out?
    case ReaderGivesUp => s.reader.Retry? && s.reader.left == 0
    case ReaderLoads => s.reader.Retry? && s.reader.left > 0
    case ReaderCopies(i) => s.reader.Copying? && i < |s.words|
    case ReaderChecks => s.reader.Copying? && forall i | 0 <= i < |s.words| :: i in s.reader.got
  }

  function Apply(s: State, a: Action): State
    requires Enabled(s, a)
  {
    match a
    case WriterLoads => s.(writer := Loaded(s.seqNo))
    case WriterOpens => s.(seqNo := (s.writer.s + 1) % WRAP, writer := Writing(s.writer.s))
    case WriterStores(i, w) => s.(words := s.words[i := w])
    case WriterCloses =>
      s.(seqNo := (s.writer.s + 2) % WRAP, writer := Away, published := s.published + [s.words])
    case ReaderCalls(n) => s.(reader := Retry(n))
    case ReaderGivesUp => s.(reader := Out, results := s.results + [Exhausted])
    case ReaderLoads =>
      s.(reader := if s.seqNo % 2 != 0 then Retry(s.reader.left - 1)
                   else Copying(s.reader.left - 1, s.seqNo, map[], Completed(s)))
    case ReaderCopies(i) => s.(reader := s.reader.(got := s.reader.got[i := s.words[i]]))
    case ReaderChecks =>
      if s.seqNo == s.reader.s1 then
        s.(reader := Out,
           results := s.results + [Snapshot(seq(|s.words|, i requires 0 <= i < |s.words| => s.reader.got[i]),
                                            s.reader.began, Completed(s) - s.reader.began)])
      else s.(reader := Retry(s.reader.left))
  }

  /** Any interleaving, from a fresh segment. */
  ghost predicate IsRun(record: seq<Word>, actions: seq<Action>, states: seq<State>) {
    && |states| == |actions| + 1 && states[0] == Init(record)
    && forall i | 0 <= i < |actions| ::
         Enabled(states[i], actions[i]) && states[i + 1] == Apply(states[i], actions[i])
  }

  /** Writes opened or closed since the start: the counter `seq` would show if it never wrapped. */
  function Counter(s: State): int {
    2 * Completed(s) + if s.writer.Writing? then 1 else 0
  }

  ghost predicate WriterInv(s: State) {
    && |s.published| > 0
    && (forall k | 0 <= k < |s.published| :: |s.published[k]| == |s.words|)
    && s.seqNo == Counter(s) % WRAP
    && (s.writer.Loaded? ==> s.writer.s == s.seqNo)
    && (s.writer.Writing? ==> s.writer.s == (2 * Completed(s)) % WRAP)
    && (!s.writer.Writing? ==> s.words == s.published[Completed(s)])
  }

  /** What an attempt has copied is the snapshot it began with, for as long as no write has opened. */
  ghost predicate ReaderInv(s: State) {
    s.reader.Copying? ==>
      && s.reader.began < |s.published|
      && |s.published[s.reader.began]| == |s.words|
      && s.reader.s1 == (2 * s.reader.began) % WRAP
      && (Counter(s) == 2 * s.reader.began ==>
            forall i | i in s.reader.got && i < |s.words| :: s.reader.got[i] == s.published[s.reader.began][i])
  }

  /** A returned snapshot is one published record, whole: the one current when its attempt began. */
  ghost predicate Whole(s: State, r: Result) {
    r.Snapshot? ==>
      && r.began < |s.published|
      && (r.overtaken < HALF_WRAP ==> r.value == s.published[r.began])
  }

  ghost predicate ResultsInv(s: State) {
    && (forall k | 0 <= k < |s.results| :: Whole(s, s.results[k]))
    && (forall k, m | 0 <= k < m < |s.results| && s.results[k].Snapshot? && s.results[m].Snapshot? ::
          s.results[k].began <= s.results[m].began)
    && (s.reader.Copying? ==>
          forall k | 0 <= k < |s.results| && s.results[k].Snapshot? :: s.results[k].began <= s.reader.began)
  }

  lemma WriterStep(s: State, a: Action)
    requires WriterInv(s) && Enabled(s, a)
    ensures WriterInv(Apply(s, a)) && Counter(s) <= Counter(Apply(s, a))
    ensures Completed(s) <= Completed(Apply(s, a))
    ensures s.published <= Apply(s, a).published
    ensures Counter(s) == Counter(Apply(s, a)) && !s.writer.Writing? ==> Apply(s, a).words == s.words
  {
    if a.WriterOpens? {
      AddThenWrap(2 * Completed(s), 1);
    } else if a.WriterCloses? {
      AddThenWrap(2 * Completed(s), 2);
    }
  }

  lemma AddThenWrap(x: nat, k: nat)
    ensures (x % WRAP + k) % WRAP == (x + k) % WRAP
  {
    var q := x / WRAP;
    assert x + k == x % WRAP + k + q * WRAP;
    WrapTurns(x % WRAP + k, q);
  }

  lemma {:induction false} WrapTurns(x: nat, q: nat)
    ensures (x + q * WRAP) % WRAP == x % WRAP
  {
    if q > 0 {
      WrapTurns(x, q - 1);
      assert x + q * WRAP == x + (q - 1) * WRAP + WRAP;
    }
  }

  lemma ReaderStep(s: State, a: Action)
    requires WriterInv(s) && ReaderInv(s) && Enabled(s, a)
    ensures ReaderInv(Apply(s, a))
  {
    WriterStep(s, a);
  }

  /** With fewer than 2^31 writes completed inside the attempt, an unchanged `seq` means no write
      was even opened. */
  lemma UnchangedMeansUntouched(s: State)
    requires WriterInv(s) && ReaderInv(s) && s.reader.Copying? && s.seqNo == s.reader.s1
    requires Completed(s) - s.reader.began < HALF_WRAP
    ensures Counter(s) == 2 * s.reader.began
  {
    var lead := Counter(s) - 2 * s.reader.began;
    assert 0 <= lead < WRAP;
    assert (2 * s.reader.began + lead) % WRAP == (2 * s.reader.began) % WRAP;
    ModuloLead(2 * s.reader.began, lead);
  }

  lemma ModuloLead(x: int, lead: int)
    requires 0 <= lead < WRAP && (x + lead) % WRAP == x % WRAP
    ensures lead == 0
  {
  }

  lemma ResultStep(s: State, a: Action)
    requires WriterInv(s) && ReaderInv(s) && ResultsInv(s) && Enabled(s, a)
    ensures ResultsInv(Apply(s, a))
  {
    WriterStep(s, a);
    var t := Apply(s, a);
    if a.ReaderChecks? && s.seqNo == s.reader.s1 {
      var r := t.results[|s.results|];
      if r.overtaken < HALF_WRAP {
        UnchangedMeansUntouched(s);
        assert r.value == s.published[r.began];
      }
    }
    forall k | 0 <= k < |s.results|
      ensures Whole(t, s.results[k])
    {
      assert Whole(s, s.results[k]);
    }
  }

  lemma {:induction false} RunKeepsTheInvariant(record: seq<Word>, actions: seq<Action>, states: seq<State>, i: nat)
    requires IsRun(record, actions, states) && i <= |actions|
    ensures WriterInv(states[i]) && ReaderInv(states[i]) && ResultsInv(states[i])
  {
    if i > 0 {
      RunKeepsTheInvariant(record, actions, states, i - 1);
      var j := i - 1;
      assert Enabled(states[j], actions[j]) && states[j + 1] == Apply(states[j], actions[j]);
      WriterStep(states[j], actions[j]);
      ReaderStep(states[j], actions[j]);
      ResultStep(states[j], actions[j]);
    }
  }

  /** Safety over every interleaving: each snapshot returned is exactly the record that was current
      when its attempt began, so never a mix and never older than the last write completed before
      then, provided fewer than 2^31 writes completed inside the attempt; and snapshots never go
      back in time. */
  lemma SnapshotsAreWholeAndOrdered(record: seq<Word>, actions: seq<Action>, states: seq<State>, i: nat)
    requires IsRun(record, actions, states) && i <= |actions|
    ensures forall k | 0 <= k < |states[i].results| && states[i].results[k].Snapshot? ::
              var r := states[i].results[k];
              && r.began < |states[i].published|
              && (r.overtaken < 0x8000_0000 ==> r.value == states[i].published[r.began])
    ensures forall k, m | 0 <= k < m < |states[i].results|
                          && states[i].results[k].Snapshot? && states[i].results[m].Snapshot? ::
              states[i].results[k].began <= states[i].results[m].began
  {
    RunKeepsTheInvariant(record, actions, states, i);
    forall k | 0 <= k < |states[i].results| && states[i].results[k].Snapshot?
      ensures Whole(states[i], states[i].results[k])
    {
    }
  }

  /** Freshness, as the caller sees it: a call made after `k` writes had completed never returns a
      record older than the k-th. */
  lemma CallIsFresh(record: seq<Word>, actions: seq<Action>, states: seq<State>, j: nat, i: nat)
    requires IsRun(record, actions, states) && j < i <= |actions| && actions[j].ReaderCalls?
    ensures Completed(states[j]) <= Completed(states[i]) && |states[j].results| <= |states[i].results|
    ensures |states[i].results| == |states[j].results| && states[i].reader.Copying? ==>
              states[i].reader.began >= Completed(states[j])
    ensures |states[i].results| > |states[j].results| ==>
              var r := states[i].results[|states[j].results|];
              r.Snapshot? ==> r.began >= Completed(states[j])
  {
    StaysFresh(record, actions, states, j, i);
  }

  /** With `n` writes completed and `count` calls returned at some point: since then no fewer, the call
      under way is in an attempt begun since, and if it has returned, its attempt was. */
  ghost predicate FreshSince(s: State, n: nat, count: nat) {
    && n <= Completed(s) && count <= |s.results|
    && (|s.results| == count && s.reader.Copying? ==> s.reader.began >= n)
    && (|s.results| > count && s.results[count].Snapshot? ==> s.results[count].began >= n)
  }

  lemma FreshStep(s: State, a: Action, n: nat, count: nat)
    requires WriterInv(s) && Enabled(s, a) && FreshSince(s, n, count)
    ensures FreshSince(Apply(s, a), n, count)
  {
    WriterStep(s, a);
  }

  lemma {:induction false} StaysFresh(record: seq<Word>, actions: seq<Action>, states: seq<State>, j: nat, i: nat)
    requires IsRun(record, actions, states) && j <= i <= |actions| && j < |actions| && actions[j].ReaderCalls?
    ensures FreshSince(states[i], Completed(states[j]), |states[j].results|)
  {
    if j == i {
      assert Enabled(states[j], actions[j]);
    } else {
      var k := i - 1;
      StaysFresh(record, actions, states, j, k);
      RunKeepsTheInvariant(record, actions, states, k);
      assert Enabled(states[k], actions[k]) && states[k + 1] == Apply(states[k], actions[k]);
      FreshStep(states[k], actions[k], Completed(states[j]), |states[j].results|);
    }
  }

  /** What publishing means: the n-th completed write published the words as they stood when it
      closed, and a published record is never rewritten. */
  lemma PublishedIsWhatWasWritten(record: seq<Word>, actions: seq<Action>, states: seq<State>, i: nat, j: nat)
    requires IsRun(record, actions, states) && i <= j <= |actions|
    ensures states[i].published <= states[j].published
    ensures i < |actions| && actions[i].WriterCloses? ==>
              states[i + 1].published == states[i].published + [states[i].words]
    decreases j
  {
    if i < j {
      PublishedIsWhatWasWritten(record, actions, states, i, j - 1);
      RunKeepsTheInvariant(record, actions, states, j - 1);
      assert Enabled(states[j - 1], actions[j - 1]) && states[(j - 1) + 1] == Apply(states[j - 1], actions[j - 1]);
      WriterStep(states[j - 1], actions[j - 1]);
    }
    if i < |actions| {
      assert states[i + 1] == Apply(states[i], actions[i]);
    }
  }

  /** An attempt is thrown away only because a write was opened after it began. */
  lemma RetryMeansAWriter(record: seq<Word>, actions: seq<Action>, states: seq<State>, i: nat)
    requires IsRun(record, actions, states) && i < |actions| && actions[i].ReaderChecks?
    ensures states[i + 1].reader.Retry? ==> Counter(states[i]) > 2 * states[i].reader.began
  {
    RunKeepsTheInvariant(record, actions, states, i);
    assert Enabled(states[i], actions[i]) && states[i + 1] == Apply(states[i], actions[i]);
  }

  // ---- what spoils an attempt ----

  /** The loaded `seq` is odd exactly while a write is open. */
  lemma OddMeansOpen(s: State)
    requires WriterInv(s)
    ensures s.seqNo % 2 != 0 <==> s.writer.Writing?
  {
    var n := Counter(s);
    assert n == WRAP * (n / WRAP) + n % WRAP;
  }

  /** An attempt is thrown away at its load if and only if a write is open then; otherwise it starts
      copying, with one attempt fewer left either way. */
  lemma LoadDiscardsExactlyWhenOpen(record: seq<Word>, actions: seq<Action>, states: seq<State>, i: nat)
    requires IsRun(record, actions, states) && i < |actions| && actions[i].ReaderLoads?
    ensures states[i + 1].reader
            == if states[i].writer.Writing? then Retry(states[i].reader.left - 1)
               else Copying(states[i].reader.left - 1, states[i].seqNo, map[], Completed(states[i]))
  {
    RunKeepsTheInvariant(record, actions, states, i);
    OddMeansOpen(states[i]);
    assert Enabled(states[i], actions[i]) && states[i + 1] == Apply(states[i], actions[i]);
  }

  /** An attempt that reaches its check with no write opened since it began returns the record as it
      stands. */
  lemma CheckReturnsUndisturbed(record: seq<Word>, actions: seq<Action>, states: seq<State>, i: nat)
    requires IsRun(record, actions, states) && i < |actions| && actions[i].ReaderChecks?
    requires Counter(states[i]) == 2 * states[i].reader.began
    ensures states[i + 1].reader.Out?
    ensures states[i + 1].results == states[i].results + [Snapshot(states[i].words, Completed(states[i]), 0)]
  {
    RunKeepsTheInvariant(record, actions, states, i);
    var s := states[i];
    assert Enabled(s, actions[i]) && states[i + 1] == Apply(s, actions[i]);
    assert Completed(s) == s.reader.began;
    assert seq(|s.words|, k requires 0 <= k < |s.words| => s.reader.got[k]) == s.words;
  }

  /** The loads among the steps `lo..hi`. */
  ghost function Loads(actions: seq<Action>, lo: nat, hi: nat): nat
    requires lo <= hi <= |actions|
  {
    if lo == hi then 0 else Loads(actions, lo, hi - 1) + if actions[hi - 1].ReaderLoads? then 1 else 0
  }

  /** The steps after a call of `n` attempts at step `j`, up to but not including `k`, end no call. */
  ghost predicate Within(actions: seq<Action>, states: seq<State>, j: nat, n: nat, k: nat)
    requires |states| == |actions| + 1
  {
    j < k <= |actions| && actions[j] == ReaderCalls(n)
    && forall m | j < m <= k :: |states[m].results| == |states[j].results|
  }

  /** A write is opened between the load at `m` and the check at `c`. */
  ghost predicate OpenedBetween(actions: seq<Action>, m: nat, c: nat) {
    exists o :: m < o < c < |actions| && actions[o].WriterOpens?
  }

  /** The attempt loaded at step `m` came to nothing before step `k`: a write was open at its load, or
      its own check came after a write had opened. */
  ghost predicate Spoiled(actions: seq<Action>, states: seq<State>, m: nat, k: nat)
    requires |states| == |actions| + 1 && m < |actions|
  {
    || states[m].writer.Writing?
    || exists c :: && m < c < k && c < |actions| && actions[c].ReaderChecks? && OpenedBetween(actions, m, c)
                   && forall x | m < x < c :: !actions[x].ReaderLoads?
  }

  /** The attempt under way: the load it began with, and nothing opened then. */
  ghost predicate UnderWay(actions: seq<Action>, states: seq<State>, m: nat, k: nat)
    requires |states| == |actions| + 1 && m < k <= |actions|
  {
    && actions[m].ReaderLoads? && states[k].reader.Copying? && !states[m].writer.Writing?
    && Counter(states[m]) == 2 * states[k].reader.began
    && forall x | m < x < k :: !actions[x].ReaderLoads? && !actions[x].ReaderChecks?
  }

  /** During a call: the attempts left and the loads made add up, and every load so far was spoiled or
      began the attempt under way. */
  ghost predicate Accounted(actions: seq<Action>, states: seq<State>, j: nat, n: nat, k: nat)
    requires |states| == |actions| + 1 && Within(actions, states, j, n, k)
  {
    && (states[k].reader.Retry? || states[k].reader.Copying?)
    && states[k].reader.left + Loads(actions, j, k) == n
    && forall m | j < m < k && actions[m].ReaderLoads? ::
         Spoiled(actions, states, m, k) || UnderWay(actions, states, m, k)
  }

  /** Between two states with more writes opened, one opens. */
  lemma {:induction false} SomethingOpens(record: seq<Word>, actions: seq<Action>, states: seq<State>, m: nat, c: nat)
    returns (o: nat)
    requires IsRun(record, actions, states) && m <= c <= |actions|
    requires !states[m].writer.Writing? && Counter(states[m]) < Counter(states[c])
    ensures m <= o < c && actions[o].WriterOpens?
    decreases c
  {
    RunKeepsTheInvariant(record, actions, states, c - 1);
    assert Enabled(states[c - 1], actions[c - 1]) && states[(c - 1) + 1] == Apply(states[c - 1], actions[c - 1]);
    if Counter(states[m]) < Counter(states[c - 1]) {
      o := SomethingOpens(record, actions, states, m, c - 1);
    } else {
      CounterGrows(record, actions, states, m, c - 1);
      RunKeepsTheInvariant(record, actions, states, m);
      o := c - 1;
    }
  }

  lemma {:induction false} CounterGrows(record: seq<Word>, actions: seq<Action>, states: seq<State>, m: nat, c: nat)
    requires IsRun(record, actions, states) && m <= c <= |actions|
    ensures Counter(states[m]) <= Counter(states[c])
    decreases c
  {
    if m < c {
      CounterGrows(record, actions, states, m, c - 1);
      RunKeepsTheInvariant(record, actions, states, c - 1);
      assert Enabled(states[c - 1], actions[c - 1]) && states[(c - 1) + 1] == Apply(states[c - 1], actions[c - 1]);
      WriterStep(states[c - 1], actions[c - 1]);
    }
  }

  /** A load that ended up under way is spoiled by a check that sends it back. */
  lemma CheckSpoils(record: seq<Word>, actions: seq<Action>, states: seq<State>, m: nat, k: nat)
    requires IsRun(record, actions, states) && m < k < |actions| && actions[k].ReaderChecks?
    requires UnderWay(actions, states, m, k) && states[k + 1].reader.Retry?
    ensures Spoiled(actions, states, m, k + 1)
  {
    RetryMeansAWriter(record, actions, states, k);
    var o := SomethingOpens(record, actions, states, m, k);
    assert OpenedBetween(actions, m, k);
  }

  lemma SpoiledStays(actions: seq<Action>, states: seq<State>, m: nat, k: nat)
    requires |states| == |actions| + 1 && m < |actions| && Spoiled(actions, states, m, k)
    ensures Spoiled(actions, states, m, k + 1)
  {
  }

  lemma AccountStep(record: seq<Word>, actions: seq<Action>, states: seq<State>, j: nat, n: nat, k: nat)
    requires IsRun(record, actions, states) && k < |actions|
    requires Within(actions, states, j, n, k) && Within(actions, states, j, n, k + 1)
    requires Accounted(actions, states, j, n, k)
    ensures Accounted(actions, states, j, n, k + 1)
  {
    RunKeepsTheInvariant(record, actions, states, k);
    assert Enabled(states[k], actions[k]) && states[k + 1] == Apply(states[k], actions[k]);
    OddMeansOpen(states[k]);
    forall m | j < m < k + 1 && actions[m].ReaderLoads?
      ensures Spoiled(actions, states, m, k + 1) || UnderWay(actions, states, m, k + 1)
    {
      if m < k {
        if Spoiled(actions, states, m, k) {
          SpoiledStays(actions, states, m, k);
        } else if actions[k].ReaderChecks? {
          CheckSpoils(record, actions, states, m, k);
        }
      }
    }
  }

  lemma {:induction false} CallIsAccounted(
      record: seq<Word>, actions: seq<Action>, states: seq<State>, j: nat, n: nat, k: nat)
    requires IsRun(record, actions, states) && Within(actions, states, j, n, k)
    ensures Accounted(actions, states, j, n, k)
    decreases k
  {
    if k == j + 1 {
      assert Enabled(states[j], actions[j]) && states[j + 1] == Apply(states[j], actions[j]);
      assert Loads(actions, j, k) == Loads(actions, j, j) + 0;
    } else {
      CallIsAccounted(record, actions, states, j, n, k - 1);
      AccountStep(record, actions, states, j, n, k - 1);
    }
  }

  /** A call returns nothing only after exactly the attempts it was given, each of them spoiled: a write
      was open at its load, or opened before its own check. */
  lemma ExhaustedMeansEveryAttemptWasSpoiled(
      record: seq<Word>, actions: seq<Action>, states: seq<State>, j: nat, n: nat, i: nat)
    requires IsRun(record, actions, states) && i < |actions| && Within(actions, states, j, n, i)
    requires |states[i + 1].results| > |states[i].results| && states[i + 1].results[|states[i].results|].Exhausted?
    ensures Loads(actions, j, i) == n
    ensures forall m | j < m < i && actions[m].ReaderLoads? :: Spoiled(actions, states, m, i)
  {
    CallIsAccounted(record, actions, states, j, n, i);
    assert Enabled(states[i], actions[i]) && states[i + 1] == Apply(states[i], actions[i]);
  }

  /** In a call with nothing in its way: the first attempt is still to come, or it is under way and
      no write has opened since it began. */
  ghost predicate FirstAttempt(actions: seq<Action>, states: seq<State>, j: nat, n: nat, k: nat)
    requires |states| == |actions| + 1 && j <= k <= |actions|
  {
    if states[k].reader.Copying? then
      Loads(actions, j, k) == 1 && Counter(states[k]) == 2 * states[k].reader.began
    else
      Loads(actions, j, k) == 0 && states[k].reader == Retry(n)
  }

  lemma {:induction false} UndisturbedStaysFirst(
      record: seq<Word>, actions: seq<Action>, states: seq<State>, j: nat, n: nat, k: nat)
    requires IsRun(record, actions, states) && Within(actions, states, j, n, k) && n > 0
    requires forall m | j <= m <= k :: !states[m].writer.Writing?
    ensures FirstAttempt(actions, states, j, n, k)
    decreases k
  {
    var p := k - 1;
    RunKeepsTheInvariant(record, actions, states, p);
    assert Enabled(states[p], actions[p]) && states[p + 1] == Apply(states[p], actions[p]);
    assert Loads(actions, j, k) == Loads(actions, j, p) + if actions[p].ReaderLoads? then 1 else 0;
    if p > j {
      UndisturbedStaysFirst(record, actions, states, j, n, p);
      OddMeansOpen(states[p]);
    }
  }

  /** A call with an attempt to make, during which no write is open, returns the record as it stands,
      from its first attempt. */
  lemma UndisturbedCallSucceeds(
      record: seq<Word>, actions: seq<Action>, states: seq<State>, j: nat, n: nat, i: nat)
    requires IsRun(record, actions, states) && i < |actions| && Within(actions, states, j, n, i) && n > 0
    requires |states[i + 1].results| > |states[i].results|
    requires forall k | j <= k <= i :: !states[k].writer.Writing?
    ensures states[i + 1].results == states[i].results + [Snapshot(states[i].words, Completed(states[i]), 0)]
    ensures Loads(actions, j, i) == 1
  {
    UndisturbedStaysFirst(record, actions, states, j, n, i);
    assert Enabled(states[i], actions[i]) && states[i + 1] == Apply(states[i], actions[i]);
    CheckReturnsUndisturbed(record, actions, states, i);
  }

  /** The steps can be taken one after the other from `s`, and end in `t`. */
  ghost predicate Leads(s: State, actions: seq<Action>, t: State)
    decreases |actions|
  {
    if actions == [] then s == t
    else Enabled(s, actions[0]) && Leads(Apply(s, actions[0]), actions[1..], t)
  }

  /** No call gets stuck: while the writer stands still the reader's own steps finish it, with the
      record as it stands if there is an attempt left and no write is open, and with nothing if not. */
  lemma {:induction false} CallCanFinish(s: State, n: nat) returns (actions: seq<Action>)
    requires WriterInv(s) && s.reader == Retry(n)
    ensures Leads(s, actions, s.(reader := Out, results := s.results + [
              if n > 0 && !s.writer.Writing? then Snapshot(s.words, Completed(s), 0) else Exhausted]))
    ensures forall a | a in actions :: a.ReaderLoads? || a.ReaderCopies? || a.ReaderChecks? || a.ReaderGivesUp?
    decreases n
  {
    OddMeansOpen(s);
    if n == 0 {
      actions := [ReaderGivesUp];
    } else {
      var loaded := Apply(s, ReaderLoads);
      var rest: seq<Action>;
      if s.writer.Writing? {
        rest := CallCanFinish(loaded, n - 1);
      } else {
        rest := CopyCanFinish(loaded, 0);
      }
      actions := [ReaderLoads] + rest;
      assert actions[1..] == rest;
    }
  }

  lemma {:induction false} CopyCanFinish(s: State, k: nat) returns (actions: seq<Action>)
    requires s.reader.Copying? && s.seqNo == s.reader.s1 && s.reader.began == Completed(s) && k <= |s.words|
    requires forall i | 0 <= i < k :: i in s.reader.got && s.reader.got[i] == s.words[i]
    ensures Leads(s, actions, s.(reader := Out, results := s.results + [Snapshot(s.words, Completed(s), 0)]))
    ensures forall a | a in actions :: a.ReaderCopies? || a.ReaderChecks?
    decreases |s.words| - k
  {
    if k == |s.words| {
      actions := [ReaderChecks];
      assert seq(|s.words|, i requires 0 <= i < |s.words| => s.reader.got[i]) == s.words;
    } else {
      var rest := CopyCanFinish(Apply(s, ReaderCopies(k)), k + 1);
      actions := [ReaderCopies(k)] + rest;
      assert actions[1..] == rest;
    }
  }

  // ---- the bound is sharp ----

  ghost predicate Reachable(record: seq<Word>, s: State) {
    exists actions, states :: IsRun(record, actions, states) && states[|actions|] == s
  }

  lemma StartIsReachable(record: seq<Word>)
    ensures Reachable(record, Init(record))
  {
    assert IsRun(record, [], [Init(record)]);
  }

  lemma StepIsReachable(record: seq<Word>, s: State, a: Action)
    requires Reachable(record, s) && Enabled(s, a)
    ensures Reachable(record, Apply(s, a))
  {
    var actions, states :| IsRun(record, actions, states) && states[|actions|] == s;
    assert IsRun(record, actions + [a], states + [Apply(s, a)]);
  }

  /** `s` after `n` more complete writes of the two-word record [1, 1]. */
  function AfterWrites(s: State, n: nat): State {
    s.(seqNo := (s.seqNo + 2 * n) % WRAP,
       words := if n == 0 then s.words else [1, 1],
       published := s.published + seq(n, _ => [1, 1]))
  }

  lemma OneWriteIsReachable(record: seq<Word>, s: State)
    requires Reachable(record, s) && s.writer.Away? && |s.words| == 2 && s.seqNo < WRAP
    ensures Reachable(record, AfterWrites(s, 1))
  {
    StepIsReachable(record, s, WriterLoads);
    var open := s.(seqNo := (s.seqNo + 1) % WRAP, writer := Writing(s.seqNo));
    StepIsReachable(record, s.(writer := Loaded(s.seqNo)), WriterOpens);
    StepIsReachable(record, open, WriterStores(0, 1));
    StepIsReachable(record, open.(words := s.words[0 := 1]), WriterStores(1, 1));
    assert s.words[0 := 1][1 := 1] == [1, 1];
    StepIsReachable(record, open.(words := [1, 1]), WriterCloses);
    assert [[1, 1]] == seq(1, _ => [1, 1]);
  }

  lemma {:induction false} WritesAreReachable(record: seq<Word>, s: State, n: nat)
    requires Reachable(record, s) && s.writer.Away? && |s.words| == 2 && s.seqNo < WRAP
    ensures Reachable(record, AfterWrites(s, n))
  {
    if n == 0 {
      assert AfterWrites(s, 0) == s by { assert s.published + seq(0, _ => [1, 1]) == s.published; }
    } else {
      WritesAreReachable(record, s, n - 1);
      OneWriteIsReachable(record, AfterWrites(s, n - 1));
      OneMoreWrite(s, n - 1);
    }
  }

  lemma OneMoreWrite(s: State, n: nat)
    ensures AfterWrites(AfterWrites(s, n), 1) == AfterWrites(s, n + 1)
  {
    AddThenWrap(s.seqNo + 2 * n, 2);
    assert s.published + seq(n, _ => [1, 1]) + seq(1, _ => [1, 1]) == s.published + seq(n + 1, _ => [1, 1]);
  }

  /** With exactly 2^31 writes inside one attempt the counter comes back to where it was, and a
      reader can return a mix that was never published: the bound above cannot be relaxed. */
  lemma WrappedCounterTearsARead() returns (s: State)
    ensures Reachable([0, 0], s)
    ensures s.results == [Snapshot([0, 1], 0, 0x8000_0000)]
    ensures [0, 1] !in s.published
  {
    HalfReadIsReachable();
    s := RestOfTheRead(HALF_WRAP);
  }

  /** The reader has copied the first of two words and not yet the second. */
  const HALF_READ: State := Init([0, 0]).(reader := Copying(0, 0, map[0 := 0], 0))

  lemma HalfReadIsReachable()
    ensures Reachable([0, 0], HALF_READ)
  {
    var start := Init([0, 0]);
    StartIsReachable([0, 0]);
    StepIsReachable([0, 0], start, ReaderCalls(1));
    StepIsReachable([0, 0], start.(reader := Retry(1)), ReaderLoads);
    StepIsReachable([0, 0], start.(reader := Copying(0, 0, map[], 0)), ReaderCopies(0));
  }

  lemma RestOfTheRead(n: nat) returns (s: State)
    requires Reachable([0, 0], HALF_READ) && 0 < n && 2 * n == WRAP
    ensures Reachable([0, 0], s) && [0, 1] !in s.published
    ensures s.results == [Snapshot([0, 1], 0, n)]
  {
    WritesAreReachable([0, 0], HALF_READ, n);
    var after := AfterWrites(HALF_READ, n);
    StepIsReachable([0, 0], after, ReaderCopies(1));
    s := FinishTornRead([0, 0], after.(reader := Copying(0, 0, map[0 := 0, 1 := 1], 0)));
    assert [0, 1][0] == 0 && [0, 1][1] == 1;
  }

  lemma FinishTornRead(record: seq<Word>, torn: State) returns (s: State)
    requires Reachable(record, torn) && torn.words == [1, 1] && torn.seqNo == 0 && torn.results == []
    requires torn.reader == Copying(0, 0, map[0 := 0, 1 := 1], 0)
    ensures Reachable(record, s) && s.published == torn.published
    ensures s.results == [Snapshot([0, 1], 0, Completed(torn))]
  {
    StepIsReachable(record, torn, ReaderChecks);
    s := Apply(torn, ReaderChecks);
    assert s.results[0].value == [0, 1];
  }
}
