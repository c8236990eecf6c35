/**
 * The workload generator's state machine (`generate_preamble`, `generate_workload`): a
 * preamble of distinct writes, then a main section where each command drawn until one is
 * feasible is followed by injected reads that push the read ratio up to the target.
 *
 * Random draws are the points `u` in [0, 1) the generator's routines turn into keys, kinds
 * and values; a loop that draws until a condition holds is one `:|` choice of a draw that
 * meets the condition.
 */
module WorkloadGenerator {
  import opened Options
  import opened Outcomes
  import opened WorkloadText
  import opened WorkloadCommands
  import opened WorkloadKinds

  /** `written_keys_and_locations`: each existing key and the position of its last write. */
  type Table = map<string, int>

  /** The line `generate_workload` writes between the preamble and the main section. */
  const END_PREAMBLE: string := "end preamble"

  /** The number of corrector probes after which the fallback key is read. */
  const MAX_PROBES: nat := 5

  /** The lines written for a run of commands, one `to_str` each. */
  function Lines(cmds: seq<Command>): (lines: seq<string>)
    ensures |lines| == |cmds|
  {
    seq(|cmds|, i requires 0 <= i < |cmds| => ToStr(cmds[i]))
  }

  /** Writing two runs of commands one after the other writes their lines one after the other. */
  lemma LinesAppend(a: seq<Command>, b: seq<Command>)
    ensures Lines(a + b) == Lines(a) + Lines(b)
  {
  }

  /** The lines of a run followed by one more command. */
  lemma LinesSnoc(cmds: seq<Command>, command: Command)
    ensures Lines(cmds + [command]) == Lines(cmds) + [ToStr(command)]
  {
    LinesAppend(cmds, [command]);
  }

  /** The keys a run of commands names. */
  function KeysOf(cmds: seq<Command>): set<string>
    decreases |cmds|
  {
    if cmds == [] then {} else KeysOf(cmds[..|cmds| - 1]) + {cmds[|cmds| - 1].key}
  }

  /** A key is named by the run exactly when some command of it names the key. */
  lemma {:induction false} KeysOfMember(cmds: seq<Command>, key: string)
    ensures key in KeysOf(cmds) <==> exists i :: 0 <= i < |cmds| && cmds[i].key == key
  {
    if cmds != [] {
      var init := cmds[..|cmds| - 1];
      KeysOfMember(init, key);
      if key in KeysOf(init) {
        var i :| 0 <= i < |init| && init[i].key == key;
        assert cmds[i].key == key;
      } else if exists i :: 0 <= i < |cmds| && cmds[i].key == key {
        var i :| 0 <= i < |cmds| && cmds[i].key == key;
        if i < |init| {
          assert init[i].key == key;
        }
      }
    }
  }

  /** No two commands of the run name the same key. */
  predicate DistinctKeys(cmds: seq<Command>)
  {
    forall i, j :: 0 <= i < j < |cmds| ==> cmds[i].key != cmds[j].key
  }

  /** A value `generate_command_value` can produce. */
  ghost predicate IsValueText(value: string)
  {
    exists n :: 0 <= n <= 1_000_000_000 && value == ValueText(n)
  }

  /** A preamble write: a WRITE of a key name below `bound` with a generated value. */
  ghost predicate PreambleWrite(bound: nat, command: Command)
  {
    && command.kind == Write
    && command.key in KeyNames(bound)
    && command.value.Some? && IsValueText(command.value.value)
  }

  /**
   * What `generate_preamble` promises about its writes: `num_keys // 2` of them (none for a
   * key count below 2), all WRITE commands with a generated value, on distinct keys below
   * `num_keys`.
   */
  ghost predicate IsPreamble(numKeys: int, writes: seq<Command>)
  {
    var bound: nat := if numKeys >= 2 then numKeys else 1;
    && |writes| == (if numKeys >= 2 then numKeys / 2 else 0)
    && DistinctKeys(writes)
    && forall i :: 0 <= i < |writes| ==> PreambleWrite(bound, writes[i])
  }

  /** Distinct keys are as many as the commands that name them. */
  lemma {:induction false} DistinctKeysCount(cmds: seq<Command>)
    requires DistinctKeys(cmds)
    ensures |KeysOf(cmds)| == |cmds|
  {
    if cmds != [] {
      var init := cmds[..|cmds| - 1];
      var last := cmds[|cmds| - 1];
      DistinctKeysCount(init);
      assert last.key !in KeysOf(init) by {
        KeysOfMember(init, last.key);
      }
    }
  }

  /** A write on a key the run does not name yet keeps the keys distinct and adds its key. */
  lemma FreshKey(cmds: seq<Command>, command: Command)
    requires DistinctKeys(cmds) && command.key !in KeysOf(cmds)
    ensures DistinctKeys(cmds + [command])
    ensures KeysOf(cmds + [command]) == KeysOf(cmds) + {command.key}
  {
    NotNamed(cmds, command.key);
    KeepsDistinct(cmds, command);
    KeysOfSnoc(cmds, command);
  }

  /** The keys of a run followed by one more command. */
  lemma KeysOfSnoc(cmds: seq<Command>, command: Command)
    ensures KeysOf(cmds + [command]) == KeysOf(cmds) + {command.key}
  {
    assert (cmds + [command])[..|cmds|] == cmds;
  }

  /** A key the run does not name is the key of none of its commands. */
  lemma NotNamed(cmds: seq<Command>, key: string)
    requires key !in KeysOf(cmds)
    ensures forall i :: 0 <= i < |cmds| ==> cmds[i].key != key
  {
    forall i | 0 <= i < |cmds| ensures cmds[i].key != key {
      KeyOfCommand(cmds, i);
    }
  }

  /** Appending a command whose key no command of a distinct run names keeps it distinct. */
  lemma KeepsDistinct(cmds: seq<Command>, command: Command)
    requires DistinctKeys(cmds)
    requires forall i :: 0 <= i < |cmds| ==> cmds[i].key != command.key
    ensures DistinctKeys(cmds + [command])
  {
    var all := cmds + [command];
    forall i, j | 0 <= i < j < |all| ensures all[i].key != all[j].key {
      if j < |cmds| {
        assert all[i] == cmds[i] && all[j] == cmds[j];
      } else {
        assert all[i] == cmds[i] && all[j] == command;
      }
    }
  }

  /** Every command's key is among the keys of the run. */
  lemma {:induction false} KeyOfCommand(cmds: seq<Command>, i: nat)
    requires i < |cmds|
    ensures cmds[i].key in KeysOf(cmds)
    decreases |cmds|
  {
    if i < |cmds| - 1 {
      var init := cmds[..|cmds| - 1];
      KeyOfCommand(init, i);
      assert init[i] == cmds[i];
    }
  }

  /** Appending a preamble write to preamble writes gives preamble writes. */
  lemma PreambleWrites(bound: nat, writes: seq<Command>, command: Command)
    requires forall j :: 0 <= j < |writes| ==> PreambleWrite(bound, writes[j])
    requires PreambleWrite(bound, command)
    ensures forall j :: 0 <= j < |writes| + 1 ==> PreambleWrite(bound, (writes + [command])[j])
  {
  }

  /**
   * generate_preamble: `num_keys // 2` writes, each on a key drawn until it is not taken
   * yet, with a generated value; returns the written keys.
   */
  method GeneratePreamble(numKeys: int) returns (lines: seq<string>, writes: seq<Command>, keys: set<string>)
    ensures IsPreamble(numKeys, writes)
    ensures lines == Lines(writes)
    ensures keys == KeysOf(writes) && |keys| == |writes|
  {
    lines, writes, keys := [], [], {};
    var count := if numKeys >= 2 then numKeys / 2 else 0;
    var bound: nat := if numKeys >= 2 then numKeys else 1;
    for i := 0 to count
      invariant |writes| == i && DistinctKeys(writes)
      invariant forall j :: 0 <= j < i ==> PreambleWrite(bound, writes[j])
      invariant lines == Lines(writes) && keys == KeysOf(writes)
    {
      DistinctKeysCount(writes);
      FreeKeyName(bound, keys);
      var index :| 0 <= index < bound && KeyName(index) !in keys;
      var key := KeyName(index);
      var v :| 0 <= v <= 1_000_000_000;
      var command := Command(Write, key, Some(ValueText(v)));
      FreshKey(writes, command);
      LinesSnoc(writes, command);
      assert PreambleWrite(bound, command);
      PreambleWrites(bound, writes, command);
      lines := lines + [ToStr(command)];
      writes := writes + [command];
      keys := keys + {key};
    }
    DistinctKeysCount(writes);
  }

  /** The table the preamble leaves: each preamble key, last written at position 0. */
  function Seeded(keys: set<string>): (table: Table)
    ensures table.Keys == keys && forall k :: k in table ==> table[k] == 0
  {
    map k | k in keys :: 0
  }

  /**
   * A key that exists and was last written recently enough to be read as command number
   * `n + 1` (the generator's `n_commands_written + 1`).
   */
  predicate Recent(table: Table, key: string, n: int, maxReadDistance: real)
  {
    key in table && table[key] as real + maxReadDistance >= (n + 1) as real
  }

  /** The table after command number `n + 1`: a write records its position, a delete drops the key. */
  function Apply(table: Table, n: int, command: Command): Table
  {
    match command.kind
    case Write => table[command.key := n + 1]
    case Delete => table - {command.key}
    case Read => table
  }

  /** The table after a run of commands, from the table before it. */
  function Replay(table0: Table, cmds: seq<Command>): Table
    decreases |cmds|
  {
    if cmds == [] then table0
    else Apply(Replay(table0, cmds[..|cmds| - 1]), |cmds| - 1, cmds[|cmds| - 1])
  }

  /** `last_written_key` after a run of commands, from its value before it. */
  function LastWritten(key0: string, cmds: seq<Command>): string
    decreases |cmds|
  {
    if cmds == [] then key0
    else if cmds[|cmds| - 1].kind == Write then cmds[|cmds| - 1].key
    else LastWritten(key0, cmds[..|cmds| - 1])
  }

  /** The number of READ commands in a run. */
  function Reads(cmds: seq<Command>): (n: nat)
    ensures n <= |cmds|
    decreases |cmds|
  {
    if cmds == [] then 0
    else Reads(cmds[..|cmds| - 1]) + if cmds[|cmds| - 1].kind == Read then 1 else 0
  }

  /**
   * The rules a command emitted as number `n + 1` keeps: its key is a key name below
   * `num_keys`; a write carries a generated value; a delete targets an existing key; a
   * read carries no value and targets a recent key or the last written key.
   */
  ghost predicate Allowed(numKeys: nat, maxReadDistance: real, table: Table, last: string, n: int, command: Command)
  {
    && command.key in KeyNames(numKeys)
    && match command.kind
       case Write => command.value.Some? && IsValueText(command.value.value)
       case Delete => command.key in table && command.value == None
       case Read => command.value == None && (Recent(table, command.key, n, maxReadDistance) || command.key == last)
  }

  /** Every command of the run is allowed in the state the commands before it leave. */
  ghost predicate Legal(numKeys: nat, maxReadDistance: real, table0: Table, key0: string, cmds: seq<Command>)
    decreases |cmds|
  {
    cmds == [] ||
    var init := cmds[..|cmds| - 1];
    && Legal(numKeys, maxReadDistance, table0, key0, init)
    && Allowed(numKeys, maxReadDistance, Replay(table0, init), LastWritten(key0, init), |init|, cmds[|cmds| - 1])
  }

  /**
   * The feasibility test of one draw of the main loop's inner `while True`, for the key
   * the draw holds (None when it drew none): the command it emits, or None to draw again.
   * A write always goes through, a delete only for an existing key, a read only for a
   * recent key.
   */
  function MainDraw(table: Table, n: int, maxReadDistance: real, kind: CommandKind, key: Option<string>, value: string): (r: Option<Command>)
    requires kind != Read ==> key.Some?
    ensures r.Some? ==> r.value.kind == kind && key == Some(r.value.key)
    ensures kind == Write ==> r.Some?
    ensures kind == Delete ==> (r.Some? <==> key.value in table)
    ensures kind == Read ==> (r.Some? <==> key.Some? && Recent(table, key.value, n, maxReadDistance))
  {
    match kind
    case Write => Some(Command(Write, key.value, Some(value)))
    case Delete => if key.value in table then Some(Command(Delete, key.value, None)) else None
    case Read =>
      if key.Some? && Recent(table, key.value, n, maxReadDistance) then Some(Command(Read, key.value, None))
      else None
  }

  /**
   * The draw as written: a READ keeps `command_key = None`, so the membership test of
   * the read branch never holds.
   */
  function MainDrawAsWritten(table: Table, n: int, maxReadDistance: real, kind: CommandKind, key: string, value: string): Option<Command>
  {
    MainDraw(table, n, maxReadDistance, kind, if kind == Read then None else Some(key), value)
  }

  /** The corrected draw: every kind draws a key. */
  function MainDrawCorrected(table: Table, n: int, maxReadDistance: real, kind: CommandKind, key: string, value: string): Option<Command>
  {
    MainDraw(table, n, maxReadDistance, kind, Some(key), value)
  }

  /** As written, the main loop never emits a READ, whatever the state and the draws. */
  lemma MainReadNeverEmitted(table: Table, n: int, maxReadDistance: real, key: string, value: string)
    ensures MainDrawAsWritten(table, n, maxReadDistance, Read, key, value) == None
    ensures Recent(table, key, n, maxReadDistance) ==>
      MainDrawCorrected(table, n, maxReadDistance, Read, key, value) == Some(Command(Read, key, None))
  {
  }

  /**
   * Every command the written draw emits, the corrected draw emits too: the corrected
   * main loop has every run of the written one among its runs.
   */
  lemma AsWrittenIsCorrected(table: Table, n: int, maxReadDistance: real, kind: CommandKind, key: string, value: string)
    ensures MainDrawAsWritten(table, n, maxReadDistance, kind, key, value).Some? ==>
      MainDrawCorrected(table, n, maxReadDistance, kind, key, value) == MainDrawAsWritten(table, n, maxReadDistance, kind, key, value)
    ensures kind != Read ==>
      MainDrawCorrected(table, n, maxReadDistance, kind, key, value) == MainDrawAsWritten(table, n, maxReadDistance, kind, key, value)
  {
  }

  /** A command the main draw emits for a drawn key and a generated value is allowed. */
  lemma MainDrawAllowed(numKeys: nat, maxReadDistance: real, table: Table, last: string, n: int,
                        kind: CommandKind, key: string, value: string)
    requires key in KeyNames(numKeys) && IsValueText(value)
    requires MainDrawCorrected(table, n, maxReadDistance, kind, key, value).Some?
    ensures Allowed(numKeys, maxReadDistance, table, last, n, MainDrawCorrected(table, n, maxReadDistance, kind, key, value).value)
  {
  }

  /**
   * One probe of the read-ratio corrector, `retries` counting this probe: the key read,
   * or None to probe again. A key that is not recent is given up on only from the fifth
   * probe on, and then the last written key is read instead.
   */
  function CorrectorProbe(table: Table, n: int, maxReadDistance: real, readKey: string, retries: nat, last: string): (r: Option<string>)
    ensures r.None? <==> !Recent(table, readKey, n, maxReadDistance) && retries < MAX_PROBES
    ensures r.Some? && r.value != readKey ==> r.value == last && retries >= MAX_PROBES
  {
    if !Recent(table, readKey, n, maxReadDistance) then
      if retries < MAX_PROBES then None else Some(last)
    else Some(readKey)
  }

  /** A read the corrector injects is allowed, fallback reads included. */
  lemma ProbeAllowed(numKeys: nat, maxReadDistance: real, table: Table, last: string, n: int, readKey: string, retries: nat)
    requires readKey in KeyNames(numKeys) && last in KeyNames(numKeys)
    requires CorrectorProbe(table, n, maxReadDistance, readKey, retries, last).Some?
    ensures Allowed(numKeys, maxReadDistance, table, last, n, Command(Read, CorrectorProbe(table, n, maxReadDistance, readKey, retries, last).value, None))
  {
  }

  /** `Decimal(reads) / Decimal(written)`, exactly. */
  function Ratio(nReads: nat, written: nat): real
    requires written > 0
  {
    nReads as real / written as real
  }

  /** The ratio test compares the reads with `written` copies of the target. */
  lemma RatioAtMost(nReads: nat, written: nat, target: real)
    requires written > 0
    ensures Ratio(nReads, written) <= target <==> nReads as real <= Copies(written, target)
  {
    CopiesTimes(written, target);
    DivisionBound(nReads as real, written as real, target);
  }

  lemma DivisionBound(a: real, w: real, t: real)
    requires w > 0.0
    ensures a / w <= t <==> a <= w * t
  {
    var q := a / w;
    assert q * w == a;
    if q <= t {
      assert q * w <= t * w;
    } else {
      assert q * w > t * w;
    }
  }

  /**
   * The reads have kept pace with a target of at most 1: at least one copy of the
   * target per command before the last one written.
   */
  ghost predicate OnPace(nReads: int, written: int, target: real)
  {
    target <= 1.0 && written > 0 ==> nReads as real >= Copies(written - 1, target)
  }

  /** One more command that is a read keeps the reads on pace. */
  lemma ReadCatchesUp(nReads: int, written: int, target: real)
    requires written > 0 && OnPace(nReads, written, target)
    ensures OnPace(nReads + 1, written + 1, target)
  {
  }

  /** The preamble's keys are key names below `num_keys`. */
  lemma PreambleKeys(numKeys: int, writes: seq<Command>)
    requires IsPreamble(numKeys, writes) && numKeys >= 2
    ensures forall k :: k in KeysOf(writes) ==> k in KeyNames(numKeys)
  {
    forall k | k in KeysOf(writes)
      ensures k in KeyNames(numKeys)
    {
      KeysOfMember(writes, k);
      var i :| 0 <= i < |writes| && writes[i].key == k;
      assert PreambleWrite(numKeys, writes[i]);
    }
  }

  /**
   * generate_workload: the preamble, the sentinel line, then the main section. With fewer
   * than two keys the preamble is empty and `next(iter(preamble_keys))` raises
   * StopIteration before the main section starts.
   */
  method GenerateWorkload(numKeys: int, numOps: int, targetReads: real, maxReadDistance: real)
    returns (lines: seq<string>, preamble: seq<Command>, body: seq<Command>, outcome: Outcome<()>)
    ensures outcome == Raised(StopIteration) <==> numKeys < 2
    ensures outcome.Raised? ==> preamble == [] && body == []
    ensures lines == Lines(preamble) + [END_PREAMBLE] + Lines(body)
    ensures IsPreamble(numKeys, preamble)
    ensures outcome.Returned? ==>
      && |body| == (if numOps > 0 then numOps else 0)
      && (exists key0 :: key0 in KeysOf(preamble) && Legal(numKeys, maxReadDistance, Seeded(KeysOf(preamble)), key0, body))
      && (targetReads <= 1.0 && numOps > 0 ==> Reads(body) as real >= Copies(numOps - 1, targetReads))
  {
    var preambleLines, preambleKeys;
    preambleLines, preamble, preambleKeys := GeneratePreamble(numKeys);
    lines := preambleLines + [END_PREAMBLE];
    if |preambleKeys| == 0 {
      return lines, preamble, [], Raised(StopIteration);
    }
    PreambleKeys(numKeys, preamble);
    var lastWrittenKey :| lastWrittenKey in preambleKeys;
    var mainLines;
    mainLines, body := MainSection(numKeys, numOps, targetReads, maxReadDistance, preambleKeys, lastWrittenKey);
    lines := lines + mainLines;
    outcome := Returned(());
  }

  /**
   * The generator's bookkeeping agrees with the commands it has emitted: the lines
   * written, the read count, the table of last write positions with its key set
   * `valid_read_keys`, and `last_written_key`; and the commands keep the rules.
   */
  ghost predicate Synced(keyCount: nat, maxReadDistance: real, table0: Table, key0: string, body: seq<Command>,
                         lines: seq<string>, nReads: int, table: Table, validReadKeys: set<string>, last: string)
  {
    && lines == Lines(body) && nReads == Reads(body)
    && table == Replay(table0, body) && validReadKeys == table.Keys
    && last == LastWritten(key0, body) && last in KeyNames(keyCount)
    && Legal(keyCount, maxReadDistance, table0, key0, body)
  }

  /**
   * The main section of generate_workload, from the preamble's keys and the first
   * `last_written_key`: `num_ops` commands. Each main-loop command is drawn until feasible,
   * and after it reads are injected while the read ratio is at most the target.
   */
  method MainSection(keyCount: nat, numOps: int, targetReads: real, maxReadDistance: real, keys: set<string>, key0: string)
    returns (lines: seq<string>, body: seq<Command>)
    requires forall k :: k in keys ==> k in KeyNames(keyCount)
    requires key0 in keys
    ensures lines == Lines(body)
    ensures |body| == (if numOps > 0 then numOps else 0)
    ensures Legal(keyCount, maxReadDistance, Seeded(keys), key0, body)
    ensures targetReads <= 1.0 && numOps > 0 ==> Reads(body) as real >= Copies(numOps - 1, targetReads)
  {
    lines, body := [], [];
    var validReadKeys := keys;
    var table := Seeded(keys);
    var written, nReads := 0, 0;
    var lastWrittenKey := key0;
    ghost var table0 := table;

    while written < numOps
      invariant written == |body| <= (if numOps > 0 then numOps else 0)
      invariant Synced(keyCount, maxReadDistance, table0, key0, body, lines, nReads, table, validReadKeys, lastWrittenKey)
      invariant OnPace(nReads, written, targetReads)
      invariant targetReads <= 1.0 && written < numOps ==> nReads as real >= Copies(written, targetReads)
    {
      written, body, lines, nReads, table, validReadKeys, lastWrittenKey :=
        MainPass(keyCount, numOps, targetReads, maxReadDistance, table0, key0,
                 written, body, lines, nReads, table, validReadKeys, lastWrittenKey);
    }
  }

  /** One pass of the main loop: a drawn command, then the read-ratio corrector. */
  method MainPass(keyCount: nat, numOps: int, targetReads: real, maxReadDistance: real, ghost table0: Table, ghost key0: string,
                  written: int, body: seq<Command>, lines: seq<string>, nReads: int, table: Table,
                  validReadKeys: set<string>, lastWrittenKey: string)
    returns (written': int, body': seq<Command>, lines': seq<string>, nReads': int, table': Table,
             validReadKeys': set<string>, lastWrittenKey': string)
    requires written == |body| < numOps
    requires Synced(keyCount, maxReadDistance, table0, key0, body, lines, nReads, table, validReadKeys, lastWrittenKey)
    requires targetReads <= 1.0 ==> nReads as real >= Copies(written, targetReads)
    ensures written < written' == |body'| <= numOps
    ensures Synced(keyCount, maxReadDistance, table0, key0, body', lines', nReads', table', validReadKeys', lastWrittenKey')
    ensures OnPace(nReads', written', targetReads)
    ensures targetReads <= 1.0 && written' < numOps ==> nReads' as real >= Copies(written', targetReads)
  {
    body', lines', nReads', table', validReadKeys', lastWrittenKey' :=
      MainCommand(keyCount, maxReadDistance, table0, key0, body, lines, nReads, table, validReadKeys, lastWrittenKey);
    written', nReads', lines', body' :=
      CorrectReadRatio(keyCount, numOps, targetReads, maxReadDistance, table0, key0, table', validReadKeys', lastWrittenKey',
                       written + 1, nReads', lines', body');
  }

  /**
   * One pass of the main loop before the corrector: the inner `while True` draws a
   * kind, a key index and a value until the command is feasible, applies it to the
   * table, `valid_read_keys`, `last_written_key` and the read count, and writes it.
   */
  method MainCommand(keyCount: nat, maxReadDistance: real, ghost table0: Table, ghost key0: string,
                     body: seq<Command>, lines: seq<string>, nReads: int, table: Table,
                     validReadKeys: set<string>, lastWrittenKey: string)
    returns (body': seq<Command>, lines': seq<string>, nReads': int, table': Table,
             validReadKeys': set<string>, lastWrittenKey': string)
    requires Synced(keyCount, maxReadDistance, table0, key0, body, lines, nReads, table, validReadKeys, lastWrittenKey)
    ensures Synced(keyCount, maxReadDistance, table0, key0, body', lines', nReads', table', validReadKeys', lastWrittenKey')
    ensures |body'| == |body| + 1 && body'[..|body|] == body
    ensures body'[|body|].kind != Read && nReads' == nReads
  {
    var command;
    command, table', validReadKeys', lastWrittenKey', nReads' :=
      DrawMainCommand(keyCount, maxReadDistance, |body|, table, validReadKeys, lastWrittenKey, nReads);
    body' := body + [command];
    lines' := lines + [ToStr(command)];
    Step(keyCount, maxReadDistance, table0, key0, body, lines, nReads, table, validReadKeys, lastWrittenKey, command,
         lines', nReads', table', validReadKeys', lastWrittenKey');
  }

  /**
   * The inner `while True` of the main loop, as command number `n + 1`: a kind, a key
   * index and a value drawn until the command is feasible under the test as written, and
   * its effect on the table, `valid_read_keys`, `last_written_key` and the read count. A
   * READ draw keeps no key and is never feasible, so the loop always ends on a WRITE or
   * on a DELETE of a key in the table.
   */
  method DrawMainCommand(keyCount: nat, maxReadDistance: real, n: int, table: Table, validReadKeys: set<string>,
                         lastWrittenKey: string, nReads: int)
    returns (command: Command, table': Table, validReadKeys': set<string>, lastWrittenKey': string, nReads': int)
    requires keyCount > 0 && validReadKeys == table.Keys
    ensures command.kind != Read && nReads' == nReads
    ensures command.kind == Delete ==> command.key in table
    ensures Allowed(keyCount, maxReadDistance, table, lastWrittenKey, n, command)
    ensures table' == Apply(table, n, command) && validReadKeys' == table'.Keys
    ensures lastWrittenKey' == if command.kind == Write then command.key else lastWrittenKey
  {
    // A write of any key is feasible, so a feasible draw exists.
    assert MainDrawAsWritten(table, n, maxReadDistance, Write, KeyName(0), ValueText(0)).Some?;
    var kind: CommandKind, keyIndex: int, v: int :|
      && 0 <= keyIndex < keyCount && 0 <= v <= 1_000_000_000
      && MainDrawAsWritten(table, n, maxReadDistance, kind, KeyName(keyIndex), ValueText(v)).Some?;
    var key := KeyName(keyIndex);
    MainReadNeverEmitted(table, n, maxReadDistance, key, ValueText(v));
    AsWrittenIsCorrected(table, n, maxReadDistance, kind, key, ValueText(v));
    command := MainDrawAsWritten(table, n, maxReadDistance, kind, key, ValueText(v)).value;
    MainDrawAllowed(keyCount, maxReadDistance, table, lastWrittenKey, n, kind, key, ValueText(v));
    table', validReadKeys', lastWrittenKey', nReads' := table, validReadKeys, lastWrittenKey, nReads;
    if kind == Write {
      table' := table[key := n + 1];
      validReadKeys' := validReadKeys + {key};
      lastWrittenKey' := key;
    } else {
      table' := table - {key};
      validReadKeys' := validReadKeys - {key};
    }
  }

  /**
   * The read-ratio corrector that follows each main-loop command: while commands remain
   * and the read ratio is at most the target, it probes a uniform key and injects a READ
   * of it when it is recent; from the fifth probe on (the probe count is never reset) a
   * key that is not recent is replaced by the last written key. It only appends reads, so
   * the table and the last written key stay as they are.
   */
  method CorrectReadRatio(keyCount: nat, numOps: int, targetReads: real, maxReadDistance: real,
                          ghost table0: Table, ghost key0: string, table: Table, validReadKeys: set<string>,
                          lastWrittenKey: string, written0: int, nReads0: int, lines0: seq<string>, body0: seq<Command>)
    returns (written: int, nReads: int, lines: seq<string>, body: seq<Command>)
    requires 0 < written0 == |body0| <= numOps
    requires Synced(keyCount, maxReadDistance, table0, key0, body0, lines0, nReads0, table, validReadKeys, lastWrittenKey)
    requires OnPace(nReads0, written0, targetReads)
    ensures written == |body| <= numOps && |body0| <= |body| && body[..|body0|] == body0
    ensures forall i :: |body0| <= i < |body| ==> body[i].kind == Read
    ensures Synced(keyCount, maxReadDistance, table0, key0, body, lines, nReads, table, validReadKeys, lastWrittenKey)
    ensures OnPace(nReads, written, targetReads)
    ensures written == numOps || nReads as real > Copies(written, targetReads)
  {
    written, nReads, lines, body := written0, nReads0, lines0, body0;
    var retries := 0;
    while written < numOps && nReads as real <= Copies(written, targetReads)
      invariant written == |body| <= numOps && |body0| <= |body| && body[..|body0|] == body0
      invariant forall i :: |body0| <= i < |body| ==> body[i].kind == Read
      invariant Synced(keyCount, maxReadDistance, table0, key0, body, lines, nReads, table, validReadKeys, lastWrittenKey)
      invariant OnPace(nReads, written, targetReads)
      decreases numOps - written, if retries < MAX_PROBES then MAX_PROBES - retries else 0
    {
      retries := retries + 1;
      var probe := DrawRead(keyCount, maxReadDistance, table, written, lastWrittenKey, retries);
      if probe.None? {
        continue;
      }
      var read := probe.value;
      ReadCatchesUp(nReads, written, targetReads);
      ReadStep(keyCount, maxReadDistance, table0, key0, body0, body, lines, nReads, table, validReadKeys, lastWrittenKey, read);
      body := body + [read];
      lines := lines + [ToStr(read)];
      written := written + 1;
      nReads := nReads + 1;
    }
  }

  /**
   * One probe of the corrector as command number `n + 1`, `retries` counting it: a
   * uniform key, and the READ to inject, or None when the key is not recent and fewer
   * than five probes were made.
   */
  method DrawRead(keyCount: nat, maxReadDistance: real, table: Table, n: int, lastWrittenKey: string, retries: nat)
    returns (read: Option<Command>)
    requires lastWrittenKey in KeyNames(keyCount)
    ensures read.None? ==> retries < MAX_PROBES
    ensures read.Some? ==> read.value.kind == Read && Allowed(keyCount, maxReadDistance, table, lastWrittenKey, n, read.value)
  {
    var readIndex :| 0 <= readIndex < keyCount;
    var readKey := KeyName(readIndex);
    var probe := CorrectorProbe(table, n, maxReadDistance, readKey, retries, lastWrittenKey);
    if probe.None? {
      return None;
    }
    ProbeAllowed(keyCount, maxReadDistance, table, lastWrittenKey, n, readKey, retries);
    read := Some(Command(Read, probe.value, None));
  }

  /**
   * Emitting an allowed command keeps the bookkeeping in step: the table takes the
   * command's effect, a write becomes the last written key, a read adds to the count.
   */
  lemma Step(keyCount: nat, maxReadDistance: real, table0: Table, key0: string, body: seq<Command>,
             lines: seq<string>, nReads: int, table: Table, validReadKeys: set<string>, last: string, command: Command,
             lines': seq<string>, nReads': int, table': Table, validReadKeys': set<string>, last': string)
    requires Synced(keyCount, maxReadDistance, table0, key0, body, lines, nReads, table, validReadKeys, last)
    requires Allowed(keyCount, maxReadDistance, table, last, |body|, command)
    requires lines' == lines + [ToStr(command)]
    requires nReads' == nReads + (if command.kind == Read then 1 else 0)
    requires table' == Apply(table, |body|, command) && validReadKeys' == table'.Keys
    requires last' == if command.kind == Write then command.key else last
    ensures Synced(keyCount, maxReadDistance, table0, key0, body + [command], lines', nReads', table', validReadKeys', last')
    ensures (body + [command])[..|body|] == body
  {
    Emitted(keyCount, maxReadDistance, table0, key0, body, command);
    LinesSnoc(body, command);
  }

  /** An injected READ keeps the bookkeeping in step and extends the run by reads only. */
  lemma ReadStep(keyCount: nat, maxReadDistance: real, table0: Table, key0: string, body0: seq<Command>, body: seq<Command>,
                 lines: seq<string>, nReads: int, table: Table, validReadKeys: set<string>, last: string, read: Command)
    requires Synced(keyCount, maxReadDistance, table0, key0, body, lines, nReads, table, validReadKeys, last)
    requires read.kind == Read && Allowed(keyCount, maxReadDistance, table, last, |body|, read)
    requires |body0| <= |body| && body[..|body0|] == body0
    requires forall i :: |body0| <= i < |body| ==> body[i].kind == Read
    ensures Synced(keyCount, maxReadDistance, table0, key0, body + [read], lines + [ToStr(read)], nReads + 1, table, validReadKeys, last)
    ensures (body + [read])[..|body0|] == body0
    ensures forall i :: |body0| <= i < |body| + 1 ==> (body + [read])[i].kind == Read
  {
    Step(keyCount, maxReadDistance, table0, key0, body, lines, nReads, table, validReadKeys, last, read,
         lines + [ToStr(read)], nReads + 1, table, validReadKeys, last);
    ReadsAppended(body0, body, read);
  }

  /** Appending a READ to a run that extends `body0` by reads extends it by reads still. */
  lemma ReadsAppended(body0: seq<Command>, body: seq<Command>, read: Command)
    requires |body0| <= |body| && body[..|body0|] == body0
    requires forall i :: |body0| <= i < |body| ==> body[i].kind == Read
    requires read.kind == Read
    ensures (body + [read])[..|body0|] == body0
    ensures forall i :: |body0| <= i < |body| + 1 ==> (body + [read])[i].kind == Read
  {
    assert (body + [read])[..|body0|] == body[..|body0|];
  }

  /** Appending an allowed command keeps the run legal and advances the replayed state by it. */
  lemma Emitted(numKeys: nat, maxReadDistance: real, table0: Table, key0: string, cmds: seq<Command>, command: Command)
    requires Legal(numKeys, maxReadDistance, table0, key0, cmds)
    requires Allowed(numKeys, maxReadDistance, Replay(table0, cmds), LastWritten(key0, cmds), |cmds|, command)
    ensures Legal(numKeys, maxReadDistance, table0, key0, cmds + [command])
    ensures Replay(table0, cmds + [command]) == Apply(Replay(table0, cmds), |cmds|, command)
    ensures LastWritten(key0, cmds + [command]) == if command.kind == Write then command.key else LastWritten(key0, cmds)
    ensures Reads(cmds + [command]) == Reads(cmds) + if command.kind == Read then 1 else 0
  {
    assert (cmds + [command])[..|cmds|] == cmds;
  }
}
