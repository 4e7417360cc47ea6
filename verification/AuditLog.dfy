/**
 * The audit log worker of solomon-core/src/audit/logger.rs as a step machine within one segment,
 * and the chain verification of solomon-core/src/audit/chain.rs. The file may be unavailable at
 * any attempt to open it; writes to an open handle succeed.
 */
module AuditLog {

  const QUEUE_LIMIT := 5000

  datatype Event = Event(timestamp: nat, eventId: string, routeTarget: string, cryptoProfile: string, region: string,
    action: string)

  datatype Record = Record(event: Event, previousHash: string, currentHash: string)

  /** compute_hash: the content of a record and the hash before it. */
  type Hasher = (Event, string) -> string

  // ----- chains

  /** The hash a chain ends with. */
  function LastHash(records: seq<Record>, initial: string): string
  {
    if records == [] then initial else records[|records| - 1].currentHash
  }

  /** Record i carries the hash of the one before it and the hash of its own content. */
  ghost predicate Linked(h: Hasher, records: seq<Record>, initial: string, i: nat)
    requires i < |records|
  {
    && records[i].previousHash == LastHash(records[..i], initial)
    && records[i].currentHash == h(records[i].event, records[i].previousHash)
  }

  ghost predicate Chained(h: Hasher, records: seq<Record>, initial: string)
  {
    forall i | 0 <= i < |records| :: Linked(h, records, initial, i)
  }

  datatype ChainError =
    | InvalidGenesisPrevious(index: nat) | BrokenPreviousHash(index: nat) | RecordHashMismatch(index: nat)

  datatype Verdict = Valid | Invalid(error: ChainError)

  /** verify_chain_with_initial_hash: it reports the first record at which the chain breaks. */
  method VerifyChain(h: Hasher, records: seq<Record>, initial: string) returns (v: Verdict)
    ensures v.Valid? <==> Chained(h, records, initial)
    ensures v.Invalid? ==> v.error.index < |records| && Chained(h, records[..v.error.index], initial)
                           && !Chained(h, records[..v.error.index + 1], initial)
    ensures v.Invalid? ==>
              var i := v.error.index;
              var before := if i == 0 then initial else records[i - 1].currentHash;
              v.error == if records[i].previousHash == before then RecordHashMismatch(i)
                         else if i == 0 then InvalidGenesisPrevious(i) else BrokenPreviousHash(i)
  {
    hide LastHash;
    if records == [] { return Valid; }
    NothingChained(h, records, initial);
    LinkMeaning(h, records, initial, 0);
    if records[0].previousHash != initial { return Invalid(InvalidGenesisPrevious(0)); }
    if records[0].currentHash != h(records[0].event, records[0].previousHash) { return Invalid(RecordHashMismatch(0)); }
    for i := 1 to |records|
      invariant Chained(h, records[..i], initial)
    {
      LinkMeaning(h, records, initial, i);
      var prev, curr := records[i - 1], records[i];
      if curr.previousHash != prev.currentHash { return Invalid(BrokenPreviousHash(i)); }
      if curr.currentHash != h(curr.event, curr.previousHash) { return Invalid(RecordHashMismatch(i)); }
    }
    assert records[..|records|] == records;
    return Valid;
  }

  lemma NothingChained(h: Hasher, records: seq<Record>, initial: string)
    ensures Chained(h, records[..0], initial)
  {}

  /** One more link, and the whole chain fails with any of its prefixes. */
  lemma LinkMeaning(h: Hasher, records: seq<Record>, initial: string, i: nat)
    requires i < |records|
    ensures Chained(h, records[..i + 1], initial)
            <==> && Chained(h, records[..i], initial)
                 && records[i].previousHash == (if i == 0 then initial else records[i - 1].currentHash)
                 && records[i].currentHash == h(records[i].event, records[i].previousHash)
    ensures Chained(h, records, initial) ==> Chained(h, records[..i + 1], initial)
  {
    hide Linked;
    LinkIs(h, records, initial, i);
    var longer, shorter := records[..i + 1], records[..i];
    forall k | 0 <= k <= i
      ensures Linked(h, longer, initial, k) == Linked(h, records, initial, k)
    {
      LinkOfPrefix(h, records, initial, k, i + 1);
    }
    forall k | 0 <= k < i
      ensures Linked(h, shorter, initial, k) == Linked(h, records, initial, k)
    {
      LinkOfPrefix(h, records, initial, k, i);
    }
    if Chained(h, longer, initial) {
      forall k | 0 <= k < i ensures Linked(h, shorter, initial, k) { assert Linked(h, longer, initial, k); }
      assert Linked(h, longer, initial, i);
    }
  }

  lemma LinkIs(h: Hasher, records: seq<Record>, initial: string, i: nat)
    requires i < |records|
    ensures Linked(h, records, initial, i)
            <==> && records[i].previousHash == (if i == 0 then initial else records[i - 1].currentHash)
                 && records[i].currentHash == h(records[i].event, records[i].previousHash)
  {
    PrefixLast(records, initial, i);
  }

  lemma LinkOfPrefix(h: Hasher, records: seq<Record>, initial: string, k: nat, n: nat)
    requires k < n <= |records|
    ensures Linked(h, records[..n], initial, k) == Linked(h, records, initial, k)
  {
    assert records[..n][..k] == records[..k];
  }

  lemma PrefixLast(records: seq<Record>, initial: string, i: nat)
    requires i < |records|
    ensures LastHash(records[..i], initial) == if i == 0 then initial else records[i - 1].currentHash
  {}

  /** Appending the next record keeps a chain; appending any other breaks it. */
  lemma ChainSnoc(h: Hasher, records: seq<Record>, initial: string, r: Record)
    ensures Chained(h, records + [r], initial)
            <==> && Chained(h, records, initial)
                 && r.previousHash == LastHash(records, initial) && r.currentHash == h(r.event, r.previousHash)
  {
    hide Chained;
    var all := records + [r];
    LinkMeaning(h, all, initial, |records|);
    assert all[..|records|] == records && all[..|records| + 1] == all;
    PrefixLast(all, initial, |records|);
  }

  /** Two chains, the second starting where the first ends, make one. */
  lemma {:induction false} ChainConcat(h: Hasher, a: seq<Record>, b: seq<Record>, initial: string)
    requires Chained(h, a, initial) && Chained(h, b, LastHash(a, initial))
    ensures Chained(h, a + b, initial) && LastHash(a + b, initial) == LastHash(b, LastHash(a, initial))
    decreases |b|
  {
    hide Chained;
    if b == [] {
      assert a + b == a;
    } else {
      var front, last := b[..|b| - 1], b[|b| - 1];
      assert b == front + [last] && a + b == (a + front) + [last];
      ChainSnoc(h, front, LastHash(a, initial), last);
      ChainConcat(h, a, front, initial);
      ChainSnoc(h, a + front, initial, last);
    }
  }

  // ----- the worker

  datatype Worker = Worker(lastHash: string, fileOpen: bool, disk: seq<Record>, queue: seq<Record>, recovered: nat,
    dropped: nat)

  /** A command, with the outcome of the attempt to open the file where there is one. */
  datatype Step = Log(event: Event, opens: bool) | Flush

  function Start(recovered: string, opens: bool): Worker
  {
    Worker(recovered, opens, [], [], 0, 0)
  }

  function NextRecord(h: Hasher, w: Worker, e: Event): Record
  {
    Record(e, w.lastHash, h(e, w.lastHash))
  }

  /** The pending lines go to disk in order. */
  function Drain(w: Worker): Worker
  {
    w.(disk := w.disk + w.queue, queue := [], recovered := w.recovered + |w.queue|)
  }

  function After(h: Hasher, w: Worker, s: Step): Worker
  {
    match s
    case Flush => if w.fileOpen then Drain(w) else w
    case Log(e, opens) =>
      var r := NextRecord(h, w, e);
      var v := w.(lastHash := r.currentHash, fileOpen := w.fileOpen || opens);
      if v.fileOpen then
        var d := Drain(v);
        d.(disk := d.disk + [r])
      else if |v.queue| < QUEUE_LIMIT then v.(queue := v.queue + [r])
      else v.(dropped := v.dropped + 1)
  }

  /** The records a run emits, in order. */
  function Emitted(h: Hasher, w: Worker, steps: seq<Step>): seq<Record>
    decreases |steps|
  {
    hide After;
    if steps == [] then []
    else (if steps[0].Log? then [NextRecord(h, w, steps[0].event)] else []) + Emitted(h, After(h, w, steps[0]),
      steps[1..])
  }

  function Run(h: Hasher, w: Worker, steps: seq<Step>): Worker
    decreases |steps|
  {
    hide After;
    if steps == [] then w else Run(h, After(h, w, steps[0]), steps[1..])
  }

  // ----- what every run keeps

  /** emitted are the records emitted since the start with hash initial. */
  ghost predicate Inv(h: Hasher, w: Worker, initial: string, emitted: seq<Record>)
  {
    && |emitted| == |w.disk| + |w.queue| + w.dropped
    && |w.queue| <= QUEUE_LIMIT
    && (w.dropped > 0 ==> w.fileOpen || |w.queue| == QUEUE_LIMIT)
    && (w.dropped == 0 ==> w.disk + w.queue == emitted)
    && Chained(h, emitted, initial) && w.lastHash == LastHash(emitted, initial)
    && (!w.fileOpen ==> w.disk == [] && w.queue <= emitted)
    && w.recovered <= |w.disk|
  }

  lemma StartInv(h: Hasher, initial: string, opens: bool)
    ensures Inv(h, Start(initial, opens), initial, [])
  {}

  /** A record is emitted while the file is closed and does not open. */
  ghost predicate Spills(w: Worker, s: Step)
  {
    s.Log? && !w.fileOpen && !s.opens
  }

  lemma StepKeeps(h: Hasher, w: Worker, initial: string, emitted: seq<Record>, s: Step)
    requires Inv(h, w, initial, emitted)
    ensures Inv(h, After(h, w, s), initial, emitted + if s.Log? then [NextRecord(h, w, s.event)] else [])
    ensures After(h, w, s).dropped == w.dropped + if Spills(w, s) && |w.queue| == 5000 then 1 else 0
    ensures After(h, w, s).recovered + |After(h, w, s).queue|
            == w.recovered + |w.queue| + if Spills(w, s) && |w.queue| < 5000 then 1 else 0
    ensures After(h, w, s).fileOpen && s.Log? ==> After(h, w, s).queue == []
  {
    hide Inv, After;
    match s
    case Flush =>
      assert emitted + [] == emitted;
      FlushKeeps(h, w, initial, emitted);
    case Log(e, opens) =>
      if w.fileOpen || opens { WriteKeeps(h, w, initial, emitted, e, opens); } else { SpillKeeps(h, w, initial,
        emitted, e); }
  }

  lemma FlushKeeps(h: Hasher, w: Worker, initial: string, emitted: seq<Record>)
    requires Inv(h, w, initial, emitted)
    ensures var v := After(h, w, Flush);
            Inv(h, v, initial, emitted) && v.dropped == w.dropped && v.recovered + |v.queue| == w.recovered + |w.queue|
  {
    hide Chained;
    assert w.disk + w.queue + [] == w.disk + w.queue;
  }

  lemma WriteKeeps(h: Hasher, w: Worker, initial: string, emitted: seq<Record>, e: Event, opens: bool)
    requires Inv(h, w, initial, emitted) && (w.fileOpen || opens)
    ensures var v := After(h, w, Log(e, opens));
            && Inv(h, v, initial, emitted + [NextRecord(h, w, e)]) && v.dropped == w.dropped && v.queue == []
            && v.recovered == w.recovered + |w.queue|
  {
    hide Chained;
    var r := NextRecord(h, w, e);
    ChainSnoc(h, emitted, initial, r);
    assert w.disk + w.queue + [r] + [] == w.disk + w.queue + [r];
  }

  lemma SpillKeeps(h: Hasher, w: Worker, initial: string, emitted: seq<Record>, e: Event)
    requires Inv(h, w, initial, emitted) && !w.fileOpen
    ensures var v := After(h, w, Log(e, false));
            && Inv(h, v, initial, emitted + [NextRecord(h, w, e)]) && !v.fileOpen
            && (if |w.queue| == 5000 then v.dropped == w.dropped + 1 && |v.queue| == |w.queue|
                else v.dropped == w.dropped && |v.queue| == |w.queue| + 1)
            && v.recovered == w.recovered && |w.queue| <= 5000
  {
    hide Chained;
    var r := NextRecord(h, w, e);
    ChainSnoc(h, emitted, initial, r);
    assert w.disk + (w.queue + [r]) == w.disk + w.queue + [r];
  }

  /** Over every run: conservation, the queue bound, order, and the chain. */
  lemma {:induction false} RunKeeps(h: Hasher, w: Worker, initial: string, emitted: seq<Record>, steps: seq<Step>)
    requires Inv(h, w, initial, emitted)
    ensures Inv(h, Run(h, w, steps), initial, emitted + Emitted(h, w, steps))
    decreases |steps|
  {
    hide Inv, After;
    if steps == [] {
      assert emitted + [] == emitted;
    } else {
      var s := steps[0];
      var added := if s.Log? then [NextRecord(h, w, s.event)] else [];
      StepKeeps(h, w, initial, emitted, s);
      RunKeeps(h, After(h, w, s), initial, emitted + added, steps[1..]);
      assert emitted + added + Emitted(h, After(h, w, s), steps[1..]) == emitted + Emitted(h, w, steps);
    }
  }

  /**
   * A run from a recovered hash: the records emitted carry the logged events in order, each is on
   * disk, queued or counted as dropped,
   * the queue never exceeds 5000, and with none dropped, disk followed by queue is the emitted
   * order and verifies from the recovered hash. With the file open from the start nothing is
   * queued or dropped.
   */
  lemma RunGuarantees(h: Hasher, initial: string, opens: bool, steps: seq<Step>)
    ensures var w := Run(h, Start(initial, opens), steps);
            var emitted := Emitted(h, Start(initial, opens), steps);
            && Events(emitted) == Logged(steps)
            && |emitted| == |w.disk| + |w.queue| + w.dropped && |w.queue| <= 5000
            && (w.dropped == 0 ==> w.disk + w.queue == emitted && Chained(h, w.disk + w.queue, initial))
            && w.lastHash == LastHash(emitted, initial) && (opens ==> w.queue == [] && w.dropped == 0)
  {
    hide Chained, Run, Emitted;
    StartInv(h, initial, opens);
    OpenStays(h, Start(initial, opens), steps);
    RunKeeps(h, Start(initial, opens), initial, [], steps);
    EmittedEvents(h, Start(initial, opens), steps);
    assert [] + Emitted(h, Start(initial, opens), steps) == Emitted(h, Start(initial, opens), steps);
  }

  /** The file is open if it was, or if an attempt to open it succeeded; it stays open and then nothing is lost. */
  lemma {:induction false} OpenStays(h: Hasher, w: Worker, steps: seq<Step>)
    ensures Run(h, w, steps).fileOpen <==> w.fileOpen || exists i | 0 <= i < |steps| :: steps[i].Log? && steps[i].opens
    ensures w.fileOpen ==> Run(h, w, steps).dropped == w.dropped && |Run(h, w, steps).queue| <= |w.queue|
    decreases |steps|
  {
    if steps != [] {
      var rest := steps[1..];
      OpenStays(h, After(h, w, steps[0]), rest);
      if i :| 0 <= i < |rest| && rest[i].Log? && rest[i].opens { assert steps[i + 1] == rest[i]; }
      if i :| 0 <= i < |steps| && steps[i].Log? && steps[i].opens && i > 0 { assert rest[i - 1] == steps[i]; }
    }
  }

  /** The events of the Log commands, in order. */
  ghost function Logged(steps: seq<Step>): seq<Event>
  {
    if steps == [] then [] else (if steps[0].Log? then [steps[0].event] else []) + Logged(steps[1..])
  }

  ghost function Events(records: seq<Record>): (r: seq<Event>)
    ensures |r| == |records| && forall i | 0 <= i < |records| :: r[i] == records[i].event
  {
    seq(|records|, i requires 0 <= i < |records| => records[i].event)
  }

  lemma {:induction false} EmittedEvents(h: Hasher, w: Worker, steps: seq<Step>)
    ensures Events(Emitted(h, w, steps)) == Logged(steps)
    decreases |steps|
  {
    hide After, Events;
    if steps == [] {
      EventsOf([], []);
    } else {
      var first := if steps[0].Log? then [NextRecord(h, w, steps[0].event)] else [];
      EmittedEvents(h, After(h, w, steps[0]), steps[1..]);
      EventsOf(first, Emitted(h, After(h, w, steps[0]), steps[1..]));
    }
  }

  lemma EventsOf(first: seq<Record>, rest: seq<Record>)
    requires |first| <= 1
    ensures Events(first + rest) == (if first == [] then [] else [first[0].event]) + Events(rest)
    ensures Events([]) == []
  {}

  // ----- restarts

  /** 64 zeros. */
  function GenesisHash(): (r: string)
    ensures |r| == 64 && forall i | 0 <= i < 64 :: r[i] == '0'
  {
    seq(64, _ => '0')
  }

  /** recover_last_hash on the newest segment: its last hash, or the genesis hash if it is empty. */
  function Recover(disk: seq<Record>): string
  {
    LastHash(disk, GenesisHash())
  }

  /**
   * After a clean stop the next run continues the chain of the first, unless the segment is empty
   * although its chain did not start at the genesis hash; then the first new record breaks it.
   */
  lemma RestartContinues(h: Hasher, initial: string, opens: bool, first: seq<Step>, opens': bool, second: seq<Step>)
    requires var w := Run(h, Start(initial, opens), first); w.queue == [] && w.dropped == 0
    requires var w := Run(h, Start(initial, opens), first);
             Run(h, Start(Recover(w.disk), opens'), second).dropped == 0
    ensures var w := Run(h, Start(initial, opens), first);
            var v := Run(h, Start(Recover(w.disk), opens'), second);
            Chained(h, w.disk + (v.disk + v.queue), initial)
            <==> w.disk != [] || initial == GenesisHash() || v.disk + v.queue == []
  {
    hide Run, Emitted, Start, Chained;
    var w := Run(h, Start(initial, opens), first);
    RunGuarantees(h, initial, opens, first);
    assert w.disk + w.queue == w.disk;
    RunGuarantees(h, Recover(w.disk), opens', second);
    var v := Run(h, Start(Recover(w.disk), opens'), second);
    var kept := v.disk + v.queue;
    if w.disk != [] || initial == GenesisHash() {
      ChainConcat(h, w.disk, kept, initial);
    } else if kept == [] {
      assert w.disk + kept == w.disk;
    } else {
      assert w.disk + kept == kept;
      FirstPrevious(h, kept, GenesisHash());
      FirstPrevious(h, kept, initial);
    }
  }

  lemma FirstPrevious(h: Hasher, records: seq<Record>, initial: string)
    requires records != []
    ensures Chained(h, records, initial) ==> records[0].previousHash == initial
  {
    if Chained(h, records, initial) { assert Linked(h, records, initial, 0); }
    assert records[..0] == [];
  }

  // ----- the cost of a drop

  /**
   * Once a record is dropped, the first record written after the outage breaks the chain on disk,
   * unless the dropped record's hash equals that of the last one kept.
   */
  lemma DropBreaksChain(h: Hasher, w: Worker, initial: string, emitted: seq<Record>, e: Event)
    requires Inv(h, w, initial, emitted) && !w.fileOpen && w.dropped > 0
    ensures var v := After(h, w, Log(e, true));
            && v.disk == w.queue + [NextRecord(h, w, e)] && v.queue == []
            && (Chained(h, v.disk, initial) <==> w.lastHash == LastHash(w.queue, initial))
  {
    hide Chained;
    var r := NextRecord(h, w, e);
    assert w.disk + w.queue + [r] == w.queue + [r];
    PrefixChained(h, emitted, |w.queue|, initial);
    assert emitted[..|w.queue|] == w.queue;
    ChainSnoc(h, w.queue, initial, r);
  }

  /** Hash number k of a run: the one it starts from, then those of its records. */
  function HashAt(emitted: seq<Record>, initial: string, k: nat): string
    requires k <= |emitted|
  {
    if k == 0 then initial else emitted[k - 1].currentHash
  }

  /** No two hashes of the run coincide. */
  ghost predicate DistinctHashes(emitted: seq<Record>, initial: string)
  {
    forall j: nat, k: nat | j < k <= |emitted| :: HashAt(emitted, initial, j) != HashAt(emitted, initial, k)
  }

  /** Everything kept was emitted. */
  ghost predicate Kept(w: Worker, emitted: seq<Record>)
  {
    forall r | r in w.disk + w.queue :: r in emitted
  }

  lemma {:induction false} RunKept(h: Hasher, w: Worker, emitted: seq<Record>, steps: seq<Step>)
    requires Kept(w, emitted)
    ensures Kept(Run(h, w, steps), emitted + Emitted(h, w, steps))
    decreases |steps|
  {
    if steps == [] {
      assert emitted + [] == emitted;
    } else {
      var s := steps[0];
      var added := if s.Log? then [NextRecord(h, w, s.event)] else [];
      var v := After(h, w, s);
      assert forall r | r in v.disk + v.queue :: r in w.disk + w.queue || r in added;
      RunKept(h, v, emitted + added, steps[1..]);
      assert emitted + added + Emitted(h, v, steps[1..]) == emitted + Emitted(h, w, steps);
    }
  }

  /** Records of a chain with distinct hashes that chain among themselves are its first ones. */
  lemma {:induction false} ChainedIsPrefix(h: Hasher, kept: seq<Record>, emitted: seq<Record>, initial: string)
    requires Chained(h, emitted, initial) && Chained(h, kept, initial) && DistinctHashes(emitted, initial)
    requires forall r | r in kept :: r in emitted
    ensures kept <= emitted
    decreases |kept|
  {
    if kept != [] {
      var n := |kept| - 1;
      var front, last := kept[..n], kept[n];
      assert kept == front + [last];
      ChainSnoc(h, front, initial, last);
      ChainedIsPrefix(h, front, emitted, initial);
      assert last in kept;
      var j: nat :| j < |emitted| && emitted[j] == last;
      assert Linked(h, emitted, initial, j);
      PreviousIs(emitted, initial, j);
      PreviousOfPrefix(front, emitted, initial);
      assert j == n;
    }
  }

  lemma PreviousIs(emitted: seq<Record>, initial: string, j: nat)
    requires j <= |emitted|
    ensures LastHash(emitted[..j], initial) == HashAt(emitted, initial, j)
  {}

  lemma PreviousOfPrefix(front: seq<Record>, emitted: seq<Record>, initial: string)
    requires front <= emitted
    ensures LastHash(front, initial) == HashAt(emitted, initial, |front|)
  {}

  /** Once writing resumes after a drop, the last record kept is the last one emitted. */
  ghost predicate Resumed(w: Worker, emitted: seq<Record>)
  {
    var kept := w.disk + w.queue;
    w.fileOpen && w.dropped > 0 ==> kept != [] && emitted != [] && kept[|kept| - 1] == emitted[|emitted| - 1]
  }

  lemma StepResumes(h: Hasher, w: Worker, emitted: seq<Record>, s: Step)
    requires Resumed(w, emitted)
    ensures Resumed(After(h, w, s), emitted + if s.Log? then [NextRecord(h, w, s.event)] else [])
  {
    if s.Flush? {
      assert emitted + [] == emitted;
      assert w.disk + w.queue + [] == w.disk + w.queue;
    }
  }

  lemma {:induction false} RunResumes(h: Hasher, w: Worker, emitted: seq<Record>, steps: seq<Step>)
    requires Resumed(w, emitted)
    ensures Resumed(Run(h, w, steps), emitted + Emitted(h, w, steps))
    decreases |steps|
  {
    hide Resumed, After;
    if steps == [] {
      assert emitted + [] == emitted;
    } else {
      var s := steps[0];
      var added := if s.Log? then [NextRecord(h, w, s.event)] else [];
      StepResumes(h, w, emitted, s);
      RunResumes(h, After(h, w, s), emitted + added, steps[1..]);
      assert emitted + added + Emitted(h, After(h, w, s), steps[1..]) == emitted + Emitted(h, w, steps);
    }
  }

  /** A shorter prefix of records with distinct hashes does not end with the last of them. */
  lemma ProperPrefixEnds(kept: seq<Record>, emitted: seq<Record>, initial: string)
    requires DistinctHashes(emitted, initial) && kept <= emitted && kept != [] && |kept| < |emitted|
    ensures kept[|kept| - 1] != emitted[|emitted| - 1]
  {
    assert HashAt(emitted, initial, |kept|) != HashAt(emitted, initial, |emitted|);
  }

  /**
   * Over every run whose hashes do not coincide, what is kept verifies from the recovered hash if
   * and only if nothing was dropped or the outage still lasts; and that is if and only if it is a
   * prefix of what was emitted.
   */
  lemma KeptChainedExactly(h: Hasher, initial: string, opens: bool, steps: seq<Step>)
    requires DistinctHashes(Emitted(h, Start(initial, opens), steps), initial)
    ensures var w := Run(h, Start(initial, opens), steps);
            var emitted := Emitted(h, Start(initial, opens), steps);
            && (Chained(h, w.disk + w.queue, initial) <==> w.dropped == 0 || !w.fileOpen)
            && (Chained(h, w.disk + w.queue, initial) <==> w.disk + w.queue <= emitted)
  {
    hide Chained, Run, Emitted, DistinctHashes;
    var start := Start(initial, opens);
    var emitted := Emitted(h, start, steps);
    StartInv(h, initial, opens);
    RunKeeps(h, start, initial, [], steps);
    assert [] + emitted == emitted;
    RunKept(h, start, [], steps);
    RunResumes(h, start, [], steps);
    var w := Run(h, start, steps);
    var kept := w.disk + w.queue;
    if kept <= emitted {
      PrefixChained(h, emitted, |kept|, initial);
      assert emitted[..|kept|] == kept;
      if w.dropped > 0 && kept != [] { ProperPrefixEnds(kept, emitted, initial); }
    }
    if Chained(h, kept, initial) { ChainedIsPrefix(h, kept, emitted, initial); }
    if !w.fileOpen { assert kept == w.queue; }
  }

  // ----- a run that drops

  function Repeat(s: Step, n: nat): (r: seq<Step>)
    ensures |r| == n && forall i | 0 <= i < n :: r[i] == s
  {
    seq(n, _ => s)
  }

  lemma {:induction false} OutageFills(h: Hasher, w: Worker, e: Event, n: nat)
    requires !w.fileOpen && |w.queue| + n <= QUEUE_LIMIT
    ensures var v := Run(h, w, Repeat(Log(e, false), n));
            !v.fileOpen && |v.queue| == |w.queue| + n && v.dropped == w.dropped && v.disk == w.disk
    decreases n
  {
    if n > 0 {
      var steps := Repeat(Log(e, false), n);
      assert steps[1..] == Repeat(Log(e, false), n - 1);
      OutageFills(h, After(h, w, Log(e, false)), e, n - 1);
    }
  }

  lemma {:induction false} RunConcat(h: Hasher, w: Worker, a: seq<Step>, b: seq<Step>)
    ensures Run(h, w, a + b) == Run(h, Run(h, w, a), b)
    decreases |a|
  {
    hide After;
    if a == [] {
      assert a + b == b;
    } else {
      assert (a + b)[1..] == a[1..] + b;
      RunConcat(h, After(h, w, a[0]), a[1..], b);
    }
  }

  /** An outage of 5001 records drops the last one. */
  lemma OutageDrops(h: Hasher, initial: string, e: Event)
    ensures var w := Run(h, Start(initial, false), Repeat(Log(e, false), 5001));
            !w.fileOpen && |w.queue| == 5000 && w.dropped == 1
  {
    hide Run, Repeat;
    var step := Log(e, false);
    var many := Repeat(step, QUEUE_LIMIT);
    assert Repeat(step, QUEUE_LIMIT + 1) == many + [step];
    OutageFills(h, Start(initial, false), e, QUEUE_LIMIT);
    var v := Run(h, Start(initial, false), many);
    RunConcat(h, Start(initial, false), many, [step]);
    OneStep(h, v, step);
  }

  /**
   * When the file opens after such an outage, the record then written does not chain to the 5000
   * before it, for every hash under which no record has the hash before it.
   */
  lemma OutageBreaksChain(h: Hasher, initial: string, e: Event, next: Event)
    requires forall x: Event, s: string :: h(x, s) != s
    ensures var w := Run(h, Start(initial, false), Repeat(Log(e, false), 5001));
            var v := After(h, w, Log(next, true));
            |v.disk| == 5001 && v.queue == [] && !Chained(h, v.disk, initial)
  {
    hide Run, Repeat, Emitted, Chained;
    var start, steps := Start(initial, false), Repeat(Log(e, false), QUEUE_LIMIT + 1);
    OutageDrops(h, initial, e);
    StartInv(h, initial, false);
    RunKeeps(h, start, initial, [], steps);
    var w, emitted := Run(h, start, steps), [] + Emitted(h, start, steps);
    DropBreaksChain(h, w, initial, emitted, next);
    assert w.queue == emitted[..QUEUE_LIMIT];
    LastLink(h, emitted, initial);
  }

  /** The last record of a chain carries the hash of the others and the hash of its content. */
  lemma LastLink(h: Hasher, emitted: seq<Record>, initial: string)
    requires emitted != [] && Chained(h, emitted, initial)
    ensures var n := |emitted| - 1;
            LastHash(emitted, initial) == h(emitted[n].event, LastHash(emitted[..n], initial))
  {
    assert Linked(h, emitted, initial, |emitted| - 1);
  }

  lemma OneStep(h: Hasher, w: Worker, s: Step)
    ensures Run(h, w, [s]) == After(h, w, s)
  {
    hide After;
    assert [s][1..] == [];
  }

  lemma PrefixChained(h: Hasher, records: seq<Record>, n: nat, initial: string)
    requires n <= |records| && Chained(h, records, initial)
    ensures Chained(h, records[..n], initial)
  {
    if n == 0 { NothingChained(h, records, initial); }
    else { LinkMeaning(h, records, initial, n - 1); }
  }

  // ----- the worker in place

  class BackgroundWorker {
    const hasher: Hasher
    var lastHash: string
    var fileOpen: bool
    var disk: seq<Record>
    var spillover: seq<Record>
    var recovered: nat
    var dropped: nat

    ghost function Value(): Worker
      reads this
    {
      Worker(lastHash, fileOpen, disk, spillover, recovered, dropped)
    }

    constructor (hasher: Hasher, initial: string, opens: bool)
      ensures this.hasher == hasher && Value() == Start(initial, opens)
    {
      this.hasher := hasher;
      lastHash, fileOpen, disk, spillover, recovered, dropped := initial, opens, [], [], 0, 0;
    }

    /** The drain loops: pending lines are written one by one. */
    method DrainSpillover()
      requires fileOpen
      modifies this
      ensures Value() == Drain(old(Value()))
    {
      var pending := spillover;
      spillover := [];
      for i := 0 to |pending|
        invariant disk == old(disk) + pending[..i] && recovered == old(recovered) + i
        invariant spillover == [] && lastHash == old(lastHash) && fileOpen && dropped == old(dropped)
      {
        disk := disk + [pending[i]];
        recovered := recovered + 1;
      }
      assert pending[..|pending|] == pending;
    }

    /** A LogEvent command; opens is the outcome of the attempt to reopen the file. */
    method LogEvent(event: Event, opens: bool) returns (record: Record)
      modifies this
      ensures record == NextRecord(hasher, old(Value()), event)
      ensures Value() == After(hasher, old(Value()), Log(event, opens))
    {
      var prevHash := lastHash;
      var currentHash := hasher(event, prevHash);
      record := Record(event, prevHash, currentHash);
      lastHash := currentHash;
      if !fileOpen { fileOpen := opens; }
      var written := false;
      if fileOpen {
        DrainSpillover();
        disk := disk + [record];
        written := true;
      }
      if !written {
        if |spillover| < QUEUE_LIMIT { spillover := spillover + [record]; } else { dropped := dropped + 1; }
      }
    }

    /** A Flush command. */
    method FlushAll()
      modifies this
      ensures Value() == After(hasher, old(Value()), Flush)
    {
      if fileOpen { DrainSpillover(); }
    }
  }
}
