/** The agent settings cache: overlapping readers, a writer, and a time-to-live of 30 seconds. */
module Settings {
  import opened Text

  const TTL := 30

  /** A stored boolean column: not in the row, null, or a value. */
  datatype Flag = Absent | Null | Value(on: bool)

  /** The settings row; an absent or null text column is None. */
  datatype SettingsRow = SettingsRow(
    assistantName: Option<string>, systemPrompt: Option<string>, scopeDescription: Option<string>,
    enforceScope: Flag, outOfScopeMessage: Option<string>)

  datatype AgentConfig = AgentConfig(
    assistantName: string, systemPrompt: string, scopeDescription: string,
    enforceScope: bool, outOfScopeMessage: string)

  function OrDefault(column: Option<string>, default: string): string {
    if column.Some? && column.value != "" then column.value else default
  }

  /** Empty or missing text falls back to the default; a null flag is false, an absent one true. */
  function RowToConfig(row: SettingsRow, d: AgentConfig): AgentConfig {
    AgentConfig(
      OrDefault(row.assistantName, d.assistantName),
      OrDefault(row.systemPrompt, d.systemPrompt),
      OrDefault(row.scopeDescription, d.scopeDescription),
      match row.enforceScope case Absent => true case Null => false case Value(on) => on,
      OrDefault(row.outOfScopeMessage, d.outOfScopeMessage))
  }

  /** A text field of the config: a column with text in it, or the field's default. */
  predicate IsField(field: string, column: Option<string>, default: string) {
    if column == None || column == Some("") then field == default else column == Some(field)
  }

  /** Each column in its own field; the flag is on unless it is null or off in the row. */
  predicate IsConfigOf(config: AgentConfig, row: SettingsRow, d: AgentConfig) {
    && IsField(config.assistantName, row.assistantName, d.assistantName)
    && IsField(config.systemPrompt, row.systemPrompt, d.systemPrompt)
    && IsField(config.scopeDescription, row.scopeDescription, d.scopeDescription)
    && IsField(config.outOfScopeMessage, row.outOfScopeMessage, d.outOfScopeMessage)
    && (config.enforceScope <==> row.enforceScope != Null && row.enforceScope != Value(false))
  }

  lemma ConfigExactly(row: SettingsRow, d: AgentConfig)
    ensures IsConfigOf(RowToConfig(row, d), row, d)
  {
  }

  /** What a reader gets from the table: the mapped row, or the default when there is none. */
  function Mapped(row: Option<SettingsRow>, d: AgentConfig): AgentConfig {
    if row.Some? then RowToConfig(row.value, d) else d
  }

  /** A get_config call between its two awaits: it took its time, and may have read the row. */
  datatype Reader = Started(now: int) | Read(now: int, config: AgentConfig)

  /** The process-wide cache and its stamp, the table's row, the clock, and the calls under way. */
  datatype State = State(
    cache: Option<AgentConfig>, cacheAt: int, row: Option<SettingsRow>, clock: int, readers: map<nat, Reader>)

  datatype Event =
    | Tick                                            // time passes
    | Write(row: Option<SettingsRow>)                 // anyone changes the row
    | Hit(config: AgentConfig)                        // a non-forced call returns the cache
    | Begin(id: nat, force: bool)                     // a call misses, or is forced, and starts its read
    | Fetch(id: nat)                                  // the table answers it
    | Commit(id: nat)                                 // it stores and returns what it read
    | Fail(id: nat)                                   // its read fails: it keeps the cache or the default

  predicate Fresh(s: State) {
    s.cache.Some? && s.clock - s.cacheAt < TTL
  }

  /** What a call keeps when its read fails. */
  function Fallback(s: State, d: AgentConfig): AgentConfig {
    if s.cache.Some? then s.cache.value else d
  }

  ghost predicate Step(d: AgentConfig, s: State, e: Event, s': State) {
    match e
    case Tick => s'.clock >= s.clock && s' == s.(clock := s'.clock)
    case Write(row) => s' == s.(row := row)
    case Hit(config) => Fresh(s) && config == s.cache.value && s' == s
    case Begin(id, force) => (force || !Fresh(s)) && id !in s.readers
                             && s' == s.(readers := s.readers[id := Started(s.clock)])
    case Fetch(id) => id in s.readers && s.readers[id].Started?
                      && s' == s.(readers := s.readers[id := Read(s.readers[id].now, Mapped(s.row, d))])
    case Commit(id) => id in s.readers && s.readers[id].Read?
                       && s' == s.(cache := Some(s.readers[id].config), cacheAt := s.readers[id].now,
                                   readers := s.readers - {id})
    case Fail(id) => id in s.readers
                     && s' == s.(cache := Some(Fallback(s, d)),
                                 cacheAt := s.readers[id].now, readers := s.readers - {id})
  }

  ghost predicate IsRun(d: AgentConfig, states: seq<State>, events: seq<Event>) {
    && |states| == |events| + 1
    && states[0].cache == None && states[0].readers == map[]
    && forall i :: 0 <= i < |events| ==> Step(d, states[i], events[i], states[i + 1])
  }

  /** The last call to store something before event i had read the row. */
  predicate LastStoreRead(events: seq<Event>, i: nat)
    requires i <= |events|
  {
    i > 0 && !events[i - 1].Fail? && (events[i - 1].Commit? || LastStoreRead(events, i - 1))
  }

  /** config is the mapped row of some state up to i whose clock was at least from. */
  ghost predicate WasRow(d: AgentConfig, states: seq<State>, i: nat, from: int, config: AgentConfig) {
    exists j :: 0 <= j <= i < |states| && from <= states[j].clock <= states[i].clock
                && config == Mapped(states[j].row, d)
  }

  lemma {:induction false} ClockGrows(d: AgentConfig, states: seq<State>, events: seq<Event>, i: nat, j: nat)
    requires IsRun(d, states, events) && i <= j < |states|
    ensures states[i].clock <= states[j].clock
    decreases j
  {
    if i < j {
      ClockGrows(d, states, events, i, j - 1);
      assert Step(d, states[j - 1], events[j - 1], states[j]);
    }
  }

  lemma WasRowLater(d: AgentConfig, states: seq<State>, events: seq<Event>, i: nat, from: int, config: AgentConfig)
    requires IsRun(d, states, events) && i + 1 < |states| && WasRow(d, states, i, from, config)
    ensures WasRow(d, states, i + 1, from, config)
  {
    ClockGrows(d, states, events, i, i + 1);
  }

  /** What each reader holds was the row at or after its stamp, and so is what is cached, unless a failed
      read restamped it. */
  ghost predicate Stamped(d: AgentConfig, states: seq<State>, events: seq<Event>, i: nat)
    requires i < |states| == |events| + 1
  {
    var s := states[i];
    && (LastStoreRead(events, i) ==> s.cache.Some? && WasRow(d, states, i, s.cacheAt, s.cache.value))
    && (forall id :: id in s.readers ==> s.readers[id].now <= s.clock)
    && (forall id :: id in s.readers && s.readers[id].Read? ==>
          WasRow(d, states, i, s.readers[id].now, s.readers[id].config))
  }

  lemma {:induction false} AlwaysStamped(d: AgentConfig, states: seq<State>, events: seq<Event>, i: nat)
    requires IsRun(d, states, events) && i < |states|
    ensures Stamped(d, states, events, i)
  {
    if i > 0 {
      AlwaysStamped(d, states, events, i - 1);
      StampedStep(d, states, events, i - 1);
    }
  }

  lemma StampedStep(d: AgentConfig, states: seq<State>, events: seq<Event>, i: nat)
    requires IsRun(d, states, events) && i < |events| && Stamped(d, states, events, i)
    ensures Stamped(d, states, events, i + 1)
  {
    var s, e, s' := states[i], events[i], states[i + 1];
    assert Step(d, s, e, s');
    ClockGrows(d, states, events, i, i + 1);
    if LastStoreRead(events, i) { WasRowLater(d, states, events, i, s.cacheAt, s.cache.value); }
    forall id | id in s'.readers && s'.readers[id].Read?
      ensures WasRow(d, states, i + 1, s'.readers[id].now, s'.readers[id].config)
    {
      if e.Fetch? && e.id == id {
        assert s'.readers[id].config == Mapped(s'.row, d);
      } else {
        WasRowLater(d, states, events, i, s.readers[id].now, s.readers[id].config);
      }
    }
    if e.Commit? { WasRowLater(d, states, events, i, s.readers[e.id].now, s.readers[e.id].config); }
  }

  /** However calls overlap, a result returned from the cache at time t was the mapped row at some instant in
      (t - 30, t], unless the last call to store something had failed to read the row. */
  lemma StalenessBound(d: AgentConfig, states: seq<State>, events: seq<Event>, i: nat)
    requires IsRun(d, states, events) && i < |events| && events[i].Hit? && LastStoreRead(events, i)
    ensures WasRow(d, states, i, states[i].clock - 30 + 1, events[i].config)
  {
    AlwaysStamped(d, states, events, i);
    assert Step(d, states[i], events[i], states[i + 1]);
    var j :| 0 <= j <= i && states[i].cacheAt <= states[j].clock <= states[i].clock
             && states[i].cache.value == Mapped(states[j].row, d);
  }

  /** So is what a call returns from its own read, for instants from the call's start on. */
  lemma ReadIsCurrent(d: AgentConfig, states: seq<State>, events: seq<Event>, i: nat)
    requires IsRun(d, states, events) && i < |events| && events[i].Commit?
    ensures events[i].id in states[i].readers && states[i].readers[events[i].id].Read?
    ensures var r := states[i].readers[events[i].id]; WasRow(d, states, i, r.now, r.config)
  {
    AlwaysStamped(d, states, events, i);
    assert Step(d, states[i], events[i], states[i + 1]);
  }

  /** The fields of an update; those that are None are left as they are. */
  datatype Patch = Patch(
    assistantName: Option<string>, systemPrompt: Option<string>, scopeDescription: Option<string>,
    enforceScope: Option<bool>, outOfScopeMessage: Option<string>)

  function Or<T>(new_: Option<T>, old_: Option<T>): Option<T> {
    if new_.Some? then new_ else old_
  }

  /** The row an update writes; base is what the table gives the columns of a new row. */
  function Upserted(row: Option<SettingsRow>, base: SettingsRow, p: Patch): SettingsRow {
    var r := if row.Some? then row.value else base;
    SettingsRow(
      Or(p.assistantName, r.assistantName), Or(p.systemPrompt, r.systemPrompt),
      Or(p.scopeDescription, r.scopeDescription),
      if p.enforceScope.Some? then Value(p.enforceScope.value) else r.enforceScope,
      Or(p.outOfScopeMessage, r.outOfScopeMessage))
  }

  /** A reader that started after the write at i holds, once it has read, what was written, as long as nobody
      else writes. */
  lemma {:induction false} OwnReader(d: AgentConfig, states: seq<State>, events: seq<Event>, i: nat, j: nat, id: nat)
    requires IsRun(d, states, events) && i < j < |states| && events[i].Write?
    requires forall k :: i < k < j ==> !events[k].Write?
    requires id !in states[i + 1].readers
    ensures states[j].row == events[i].row
    ensures id in states[j].readers && states[j].readers[id].Read? ==>
              states[j].readers[id].config == Mapped(events[i].row, d)
    decreases j
  {
    assert Step(d, states[j - 1], events[j - 1], states[j]);
    if i + 1 < j { OwnReader(d, states, events, i, j - 1, id); }
  }

  /** Event i is an update's upsert, and c the end of the read that it forces, begun after that, with no other
      write between. Whatever other readers do meanwhile, the merged row is then in the table, and the update
      returns it exactly when that read commits, or what it falls back to is the same config. */
  lemma UpdateReturnsOwn(d: AgentConfig, states: seq<State>, events: seq<Event>, i: nat, c: nat,
                         base: SettingsRow, p: Patch)
    requires IsRun(d, states, events) && i < c < |events|
    requires events[i] == Write(Some(Upserted(states[i].row, base, p)))
    requires (forall k :: i < k < c ==> !events[k].Write?) && (events[c].Commit? || events[c].Fail?)
    requires events[c].id !in states[i + 1].readers
    ensures var own := Upserted(states[i].row, base, p);
      && states[c + 1].row == Some(own)
      && (states[c + 1].cache == Some(RowToConfig(own, d))
          <==> events[c].Commit? || Fallback(states[c], d) == RowToConfig(own, d))
  {
    OwnReader(d, states, events, i, c, events[c].id);
    assert Step(d, states[c], events[c], states[c + 1]);
  }

  /** What an update returns when its read commits: a patched field is the patch's, or the default for an empty
      text; any other field is as the old row has it, or the table's defaults if there was none. */
  lemma UpdateFields(d: AgentConfig, states: seq<State>, events: seq<Event>, i: nat, c: nat,
                     base: SettingsRow, p: Patch)
    requires IsRun(d, states, events) && i < c < |events|
    requires events[i] == Write(Some(Upserted(states[i].row, base, p)))
    requires (forall k :: i < k < c ==> !events[k].Write?) && events[c].Commit?
    requires events[c].id !in states[i + 1].readers
    ensures states[c + 1].cache.Some?
    ensures var config, old_ := states[c + 1].cache.value, if states[i].row.Some? then states[i].row.value else base;
      && IsField(config.assistantName, if p.assistantName.Some? then p.assistantName else old_.assistantName,
                 d.assistantName)
      && IsField(config.systemPrompt, if p.systemPrompt.Some? then p.systemPrompt else old_.systemPrompt,
                 d.systemPrompt)
      && IsField(config.scopeDescription,
                 if p.scopeDescription.Some? then p.scopeDescription else old_.scopeDescription, d.scopeDescription)
      && IsField(config.outOfScopeMessage,
                 if p.outOfScopeMessage.Some? then p.outOfScopeMessage else old_.outOfScopeMessage,
                 d.outOfScopeMessage)
      && (config.enforceScope <==> if p.enforceScope.Some? then p.enforceScope.value
                                   else old_.enforceScope != Null && old_.enforceScope != Value(false))
  {
    UpdateReturnsOwn(d, states, events, i, c, base, p);
    ConfigExactly(Upserted(states[i].row, base, p), d);
  }

  /** With failing reads too, a cached value is the default or was the row at some instant: never anything else. */
  lemma {:induction false} NeverInvented(d: AgentConfig, states: seq<State>, events: seq<Event>, i: nat)
    requires IsRun(d, states, events) && i < |states|
    ensures states[i].cache.Some? ==>
              states[i].cache.value == d
              || exists j :: 0 <= j <= i && states[i].cache.value == Mapped(states[j].row, d)
    ensures forall id :: id in states[i].readers && states[i].readers[id].Read? ==>
              exists j :: 0 <= j <= i && states[i].readers[id].config == Mapped(states[j].row, d)
  {
    if i > 0 {
      NeverInvented(d, states, events, i - 1);
      assert Step(d, states[i - 1], events[i - 1], states[i]);
    }
  }

  /** The stamp of the last committed read before event i. */
  function CommitStamp(states: seq<State>, events: seq<Event>, i: nat): Option<int>
    requires i <= |events| < |states|
  {
    if i == 0 then None
    else if events[i - 1].Commit? then Some(states[i].cacheAt)
    else CommitStamp(states, events, i - 1)
  }

  /** Before the first committed read the cache has the default, if anything, and after it what was the row at
      some instant from the stamp of the last one on. */
  ghost predicate SinceCommit(d: AgentConfig, states: seq<State>, i: nat, stamp: Option<int>)
    requires i < |states|
  {
    var cache := states[i].cache;
    if stamp.None? then cache.Some? ==> cache.value == d
    else cache.Some? && WasRow(d, states, i, stamp.value, cache.value)
  }

  /** Failing reads or not, this holds in every state of every run. */
  lemma {:induction false} CachedSinceCommit(d: AgentConfig, states: seq<State>, events: seq<Event>, i: nat)
    requires IsRun(d, states, events) && i < |states|
    ensures SinceCommit(d, states, i, CommitStamp(states, events, i))
  {
    if i > 0 {
      if events[i - 1].Commit? {
        CommittedNow(d, states, events, i - 1);
      } else {
        CachedSinceCommit(d, states, events, i - 1);
        NotCommitted(d, states, events, i - 1, CommitStamp(states, events, i - 1));
      }
    }
  }

  lemma CommittedNow(d: AgentConfig, states: seq<State>, events: seq<Event>, i: nat)
    requires IsRun(d, states, events) && i < |events| && events[i].Commit?
    ensures SinceCommit(d, states, i + 1, Some(states[i + 1].cacheAt))
  {
    ReadIsCurrent(d, states, events, i);
    assert Step(d, states[i], events[i], states[i + 1]);
    WasRowLater(d, states, events, i, states[i].readers[events[i].id].now, states[i].readers[events[i].id].config);
  }

  lemma NotCommitted(d: AgentConfig, states: seq<State>, events: seq<Event>, i: nat, stamp: Option<int>)
    requires IsRun(d, states, events) && i < |events| && !events[i].Commit?
    requires SinceCommit(d, states, i, stamp)
    ensures SinceCommit(d, states, i + 1, stamp)
  {
    assert Step(d, states[i], events[i], states[i + 1]);
    if stamp.Some? { WasRowLater(d, states, events, i, stamp.value, states[i].cache.value); }
  }

  /** The hit at event i comes at most age after the last committed read was stamped. */
  predicate HitWithin(states: seq<State>, events: seq<Event>, i: nat, age: int) {
    && i < |events| < |states| && events[i].Hit?
    && CommitStamp(states, events, i).Some? && states[i].clock - CommitStamp(states, events, i).value <= age
  }

  /** The bound on staleness holds for the hit at event i. */
  ghost predicate Bounded(d: AgentConfig, states: seq<State>, events: seq<Event>, i: nat) {
    i < |events| < |states| && events[i].Hit? && WasRow(d, states, i, states[i].clock - TTL + 1, events[i].config)
  }

  /** Over all runs, failing reads included, every hit that comes at most age after the last committed read
      meets the bound exactly when age is below the time to live. */
  lemma BoundedExactly(d: AgentConfig, age: nat)
    ensures (forall states, events, i :: IsRun(d, states, events) && HitWithin(states, events, i, age) ==>
              Bounded(d, states, events, i)) <==> age < 30
  {
    if age < TTL {
      forall states, events, i | IsRun(d, states, events) && HitWithin(states, events, i, age)
        ensures Bounded(d, states, events, i)
      {
        HitBounded(d, states, events, i, age);
      }
    } else {
      var before, after := NamedRow("a"), NamedRow("b");
      FailureExtends(d, before, after, age);
      assert !Bounded(d, FailureStates(d, before, after, age), FailureEvents(d, before, after), 7);
    }
  }

  lemma HitBounded(d: AgentConfig, states: seq<State>, events: seq<Event>, i: nat, age: nat)
    requires age < TTL && IsRun(d, states, events) && HitWithin(states, events, i, age)
    ensures Bounded(d, states, events, i)
  {
    CachedSinceCommit(d, states, events, i);
    assert Step(d, states[i], events[i], states[i + 1]);
    var t := CommitStamp(states, events, i).value;
    var j :| 0 <= j <= i && t <= states[j].clock <= states[i].clock
             && states[i].cache.value == Mapped(states[j].row, d);
  }

  function NamedRow(name: string): SettingsRow {
    SettingsRow(Some(name), None, None, Absent, None)
  }

  function FailureStates(d: AgentConfig, before: SettingsRow, after: SettingsRow, age: nat): seq<State> {
    var c := RowToConfig(before, d);
    [State(None, 0, Some(before), 0, map[]),
     State(None, 0, Some(before), 0, map[0 := Started(0)]),
     State(None, 0, Some(before), 0, map[0 := Read(0, c)]),
     State(Some(c), 0, Some(before), 0, map[]),
     State(Some(c), 0, Some(after), 0, map[]),
     State(Some(c), 0, Some(after), age, map[]),
     State(Some(c), 0, Some(after), age, map[0 := Started(age)]),
     State(Some(c), age, Some(after), age, map[]),
     State(Some(c), age, Some(after), age, map[])]
  }

  function FailureEvents(d: AgentConfig, before: SettingsRow, after: SettingsRow): seq<Event> {
    [Begin(0, false), Fetch(0), Commit(0), Write(Some(after)), Tick, Begin(0, false), Fail(0),
     Hit(RowToConfig(before, d))]
  }

  /** One failing read restamps the cache: an old value is then returned, however long ago it was the row. */
  lemma FailureExtends(d: AgentConfig, before: SettingsRow, after: SettingsRow, age: nat)
    requires RowToConfig(before, d) != RowToConfig(after, d) && age >= 30
    ensures var states, events := FailureStates(d, before, after, age), FailureEvents(d, before, after);
      && IsRun(d, states, events) && HitWithin(states, events, 7, age)
      && !Bounded(d, states, events, 7)
      && !WasRow(d, states, 7, states[7].clock - age + 1, events[7].config)
  {
    var states, events := FailureStates(d, before, after, age), FailureEvents(d, before, after);
    forall i | 0 <= i < |events| ensures Step(d, states[i], events[i], states[i + 1]) {
      FailureStep(d, before, after, age, i);
    }
    FailureStamps(d, before, after, age);
    forall j | 0 <= j <= 7 && states[j].clock >= 1 ensures Mapped(states[j].row, d) == RowToConfig(after, d) {
      assert j >= 5;
    }
  }

  lemma FailureStamps(d: AgentConfig, before: SettingsRow, after: SettingsRow, age: nat)
    ensures CommitStamp(FailureStates(d, before, after, age), FailureEvents(d, before, after), 7) == Some(0)
  {
    var states, events := FailureStates(d, before, after, age), FailureEvents(d, before, after);
    assert CommitStamp(states, events, 3) == Some(0);
    assert CommitStamp(states, events, 5) == CommitStamp(states, events, 4) == Some(0);
    assert CommitStamp(states, events, 7) == CommitStamp(states, events, 6) == CommitStamp(states, events, 5);
  }

  lemma FailureStep(d: AgentConfig, before: SettingsRow, after: SettingsRow, age: nat, i: nat)
    requires age >= TTL && i < 8
    ensures Step(d, FailureStates(d, before, after, age)[i], FailureEvents(d, before, after)[i],
                 FailureStates(d, before, after, age)[i + 1])
  {
    var none: map<nat, Reader> := map[];
    assert map[0 := Read(0, RowToConfig(before, d))] - {0} == none && map[0 := Started(age)] - {0} == none;
  }

  /** The module's globals, with the stretches of get_config between its awaits as methods. The ghost
      parameters are the rest of the state: the table's row and the calls under way. */
  class SettingsStore {
    var cache: Option<AgentConfig>
    var cacheAt: int
    const default: AgentConfig

    ghost function At(row: Option<SettingsRow>, clock: int, readers: map<nat, Reader>): State
      reads this
    {
      State(cache, cacheAt, row, clock, readers)
    }

    constructor (default: AgentConfig)
      ensures cache == None && this.default == default
    {
      cache, cacheAt, this.default := None, 0, default;
    }

    /** Up to the read: the cached config, or nothing when the table must be asked. */
    method BeginGet(now: int, force: bool, ghost row: Option<SettingsRow>, ghost readers: map<nat, Reader>,
                    ghost id: nat)
      returns (hit: Option<AgentConfig>)
      requires id !in readers
      ensures hit == if !force && now - cacheAt < 30 then cache else None
      ensures hit.Some? ==> !force && Step(default, At(row, now, readers), Hit(hit.value), At(row, now, readers))
      ensures hit.None? ==>
        Step(default, At(row, now, readers), Begin(id, force), At(row, now, readers[id := Started(now)]))
    {
      if !force && cache.Some? && now - cacheAt < TTL {
        return cache;
      }
      return None;
    }

    /** After the read: rows is what the table gave, or None when the read failed. */
    method FinishGet(now: int, rows: Option<seq<SettingsRow>>,
                     ghost row: Option<SettingsRow>, ghost clock: int, ghost readers: map<nat, Reader>, ghost id: nat)
      returns (config: AgentConfig)
      requires id in readers && readers[id].now == now
      requires rows.Some? ==>
        readers[id] == Read(now, Mapped(if rows.value == [] then None else Some(rows.value[0]), default))
      modifies this
      ensures cache == Some(config) && cacheAt == now
      ensures rows.Some? && rows.value != [] ==> IsConfigOf(config, rows.value[0], default)
      ensures rows == Some([]) || (rows == None && old(cache) == None) ==> config == default
      ensures rows == None && old(cache).Some? ==> old(cache) == Some(config)
      ensures Step(default, old(At(row, clock, readers)), if rows.Some? then Commit(id) else Fail(id),
                   At(row, clock, readers - {id}))
    {
      match rows {
        case Some(found) => cache := Some(if found == [] then default else RowToConfig(found[0], default));
        case None => cache := Some(if cache.Some? then cache.value else default);
      }
      cacheAt := now;
      config := cache.value;
    }
  }
}
