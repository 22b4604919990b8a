/** Session memory: a Redis list per session, or an in-process one, against the log of the session's turns. */
module SessionMemory {
  import opened Text

  datatype Message = User(content: string) | Assistant(content: string)

  /** One request: at time now, on one session. */
  datatype Event =
    | AddTurn(now: int, session: string, user: string, reply: string)
    | Clear(now: int, session: string)

  /** What trimming to window W leaves of a list: a slice from index -2W on, which for W = 0 is the whole
      list and for W < 0 drops the first 2|W|. */
  function Trim(w: int, messages: seq<Message>): (kept: seq<Message>)
    ensures w >= 1 ==> |kept| <= 2 * w
    ensures |messages| % 2 == 0 ==> |kept| % 2 == 0
  {
    if w > 0 then (if |messages| > 2 * w then messages[|messages| - 2 * w..] else messages)
    else if -2 * w < |messages| then messages[-2 * w..] else []
  }

  /** The turns of a session that are still alive: those since its last clear and since its last idle spell
      as long as the time to live (None for a backend that does not expire). */
  function Live(events: seq<Event>, session: string, ttl: Option<int>): seq<Event> {
    if events == [] then []
    else
      var before, e := Live(events[..|events| - 1], session, ttl), events[|events| - 1];
      if e.session != session then before
      else if e.Clear? then []
      else Unexpired(before, e.now, ttl) + [e]
  }

  function Unexpired(turns: seq<Event>, now: int, ttl: Option<int>): seq<Event> {
    if turns != [] && ttl.Some? && now >= turns[|turns| - 1].now + ttl.value then [] else turns
  }

  function MessagesOf(turns: seq<Event>): (messages: seq<Message>)
    requires forall t :: t in turns ==> t.AddTurn?
    ensures |messages| == 2 * |turns|
  {
    if turns == [] then []
    else
      assert forall t :: t in turns[..|turns| - 1] ==> t in turns;
      var last := turns[|turns| - 1];
      MessagesOf(turns[..|turns| - 1]) + [User(last.user), Assistant(last.reply)]
  }

  lemma {:induction false} LiveTurns(events: seq<Event>, session: string, ttl: Option<int>)
    ensures forall t :: t in Live(events, session, ttl) ==> t.AddTurn? && t.session == session
  {
    if events != [] { LiveTurns(events[..|events| - 1], session, ttl); }
  }

  /** What get_messages owes at time now: for W >= 1 the last 2W messages of the live turns, for W = 0 all of
      them, for W < 0 none. */
  function Window(w: int, turns: seq<Event>): (messages: seq<Message>)
    requires forall t :: t in turns ==> t.AddTurn?
    ensures w >= 1 ==> messages == MessagesOf(turns)[if |turns| > w then 2 * (|turns| - w) else 0..]
    ensures w == 0 ==> messages == MessagesOf(turns)
    ensures w < 0 ==> messages == []
  {
    if w < 0 then [] else Trim(w, MessagesOf(turns))
  }

  /** Trimming after every turn leaves what one trim of all turns would. */
  lemma TrimAgain(w: int, turns: seq<Event>, turn: Event)
    requires turn.AddTurn? && forall t :: t in turns ==> t.AddTurn?
    ensures Trim(w, Window(w, turns) + [User(turn.user), Assistant(turn.reply)]) == Window(w, turns + [turn])
  {
    assert (turns + [turn])[..|turns|] == turns;
    var all := MessagesOf(turns);
    var added := [User(turn.user), Assistant(turn.reply)];
    assert MessagesOf(turns + [turn]) == all + added;
    TrimTwice(w, all, added);
  }

  /** Trimming a trimmed list with two more messages is trimming the whole list with them. */
  lemma TrimTwice(w: int, all: seq<Message>, added: seq<Message>)
    requires |added| == 2
    ensures w >= 0 ==> Trim(w, Trim(w, all) + added) == Trim(w, all + added)
    ensures w < 0 ==> Trim(w, added) == []
  {
    if w >= 1 && |all| > 2 * w {
      var d := |all| - 2 * w;
      assert (all[d..] + added)[2..] == (all + added)[d + 2..];
    }
  }

  /** What get_messages owes for the session at time now, by the log of all requests. */
  function Owed(w: int, events: seq<Event>, session: string, ttl: Option<int>, now: int): seq<Message> {
    LiveTurns(events, session, ttl);
    Window(w, Unexpired(Live(events, session, ttl), now, ttl))
  }

  function ListIn(m: map<string, seq<Message>>, s: string): seq<Message> {
    if s in m then m[s] else []
  }

  /** What a request makes of the in-process lists: append the turn and trim, or forget the session. */
  function MemoryStep(w: int, m: map<string, seq<Message>>, e: Event): map<string, seq<Message>> {
    match e
    case AddTurn(_, s, user, reply) =>
      m[s := Trim(w, ListIn(m, s) + [User(user), Assistant(reply)])]
    case Clear(_, s) => m - {s}
  }

  /** A Redis list and when its key expires. */
  datatype Entry = Entry(items: seq<Message>, expiresAt: int)

  function ItemsAt(m: map<string, Entry>, s: string, now: int): seq<Message> {
    if s in m && now < m[s].expiresAt then m[s].items else []
  }

  /** What a request makes of the Redis lists: the same, on what has not expired, with a new expiry. */
  function RedisStep(w: int, ttl: int, m: map<string, Entry>, e: Event): map<string, Entry> {
    match e
    case AddTurn(now, s, user, reply) =>
      m[s := Entry(Trim(w, ItemsAt(m, s, now) + [User(user), Assistant(reply)]), now + ttl)]
    case Clear(_, s) => m - {s}
  }

  function MemoryAfter(w: int, events: seq<Event>): map<string, seq<Message>> {
    if events == [] then map[] else MemoryStep(w, MemoryAfter(w, events[..|events| - 1]), events[|events| - 1])
  }

  function RedisAfter(w: int, ttl: int, events: seq<Event>): map<string, Entry> {
    if events == [] then map[] else RedisStep(w, ttl, RedisAfter(w, ttl, events[..|events| - 1]), events[|events| - 1])
  }

  /** LTRIM start -1: a negative start counts from the end of the list and is clamped to its beginning; nothing
      is left when the start is past the end. */
  function ListTrim(items: seq<Message>, start: int): seq<Message> {
    var from := if start >= 0 then start else if |items| + start > 0 then |items| + start else 0;
    if from < |items| then items[from..] else []
  }

  lemma PushedTrim(w: int, items: seq<Message>, a: Message, b: Message)
    ensures ListTrim(items + [a] + [b], -w * 2) == Trim(w, items + [a, b])
  {
    assert items + [a] + [b] == items + [a, b];
  }

  /** The two give every session the same list. */
  ghost predicate Agree(a: map<string, seq<Message>>, b: map<string, seq<Message>>) {
    forall s :: ListIn(a, s) == ListIn(b, s)
  }

  lemma LogMemory(w: int, histories: map<string, seq<Message>>, log: seq<Event>, e: Event)
    requires Agree(histories, MemoryAfter(w, log))
    ensures Agree(MemoryStep(w, histories, e), MemoryAfter(w, log + [e]))
  {
    assert (log + [e])[..|log|] == log;
    var before := MemoryAfter(w, log);
    assert ListIn(histories, e.session) == ListIn(before, e.session);
    forall s ensures ListIn(MemoryStep(w, histories, e), s) == ListIn(MemoryStep(w, before, e), s) {
      assert ListIn(histories, s) == ListIn(before, s);
    }
  }

  lemma LogRedis(w: int, ttl: int, log: seq<Event>, e: Event)
    ensures RedisAfter(w, ttl, log + [e]) == RedisStep(w, ttl, RedisAfter(w, ttl, log), e)
  {
    assert (log + [e])[..|log|] == log;
  }

  /** The in-process store: a list per session. log is every turn and clear so far. */
  class MemoryBackend {
    const window: int
    var histories: map<string, seq<Message>>
    ghost var log: seq<Event>

    /** Each session has the list that the log's turns leave, or an empty one for a session only read. */
    ghost predicate Valid()
      reads this
    {
      Agree(histories, MemoryAfter(window, log))
    }

    constructor (window: int)
      ensures Valid() && log == [] && this.window == window
    {
      this.window, histories, log := window, map[], [];
    }

    method AddTurn(session: string, user: string, reply: string, ghost now: int)
      requires Valid()
      modifies this
      ensures Valid() && log == old(log) + [Event.AddTurn(now, session, user, reply)]
      ensures histories == MemoryStep(window, old(histories), Event.AddTurn(now, session, user, reply))
    {
      LogMemory(window, histories, log, Event.AddTurn(now, session, user, reply));
      log := log + [Event.AddTurn(now, session, user, reply)];
      var history := TrimMemory(ListIn(histories, session) + [User(user), Assistant(reply)]);
      histories := histories[session := history];
    }

    /** The slice from -2W on, taken only of a list that is longer than 2W. */
    method TrimMemory(history: seq<Message>) returns (kept: seq<Message>)
      ensures kept == Trim(window, history)
    {
      var maxMessages := window * 2;
      kept := history;
      if |history| > maxMessages {
        if maxMessages > 0 {
          kept := history[|history| - maxMessages..];
        } else {
          kept := if -maxMessages < |history| then history[-maxMessages..] else [];
        }
      }
    }

    /** The window of the session's own turns since its last clear, whatever came in between on other sessions.
        Reading a session registers it. */
    method GetMessages(session: string, ghost now: int) returns (messages: seq<Message>)
      requires Valid()
      modifies this`histories
      ensures Valid() && messages == Owed(window, log, session, None, now)
      ensures session in histories && histories - {session} == old(histories) - {session}
    {
      messages := ListIn(histories, session);
      MemoryRefines(window, log, session, now);
      histories := histories[session := messages];
    }

    method ClearSession(session: string, ghost now: int)
      requires Valid()
      modifies this
      ensures Valid() && log == old(log) + [Clear(now, session)]
      ensures histories == MemoryStep(window, old(histories), Clear(now, session))
    {
      LogMemory(window, histories, log, Clear(now, session));
      log := log + [Clear(now, session)];
      histories := histories - {session};
    }
  }

  /** The Redis server's view of the session keys. log is every turn and clear so far, of all processes. */
  class RedisBackend {
    const window: int
    const ttl: int
    var lists: map<string, Entry>
    ghost var log: seq<Event>

    ghost predicate Valid()
      reads this
    {
      lists == RedisAfter(window, ttl, log)
    }

    constructor (window: int, ttl: int)
      ensures Valid() && log == [] && this.window == window && this.ttl == ttl
    {
      this.window, this.ttl, lists, log := window, ttl, map[], [];
    }

    function Range(session: string, now: int): seq<Message>
      reads this
    {
      ItemsAt(lists, session, now)
    }

    /** RPUSH, RPUSH, LTRIM -2W -1 and EXPIRE, as one pipeline. */
    method AddTurn(now: int, session: string, user: string, reply: string)
      requires Valid()
      modifies this
      ensures Valid() && log == old(log) + [Event.AddTurn(now, session, user, reply)]
      ensures lists == RedisStep(window, ttl, old(lists), Event.AddTurn(now, session, user, reply))
    {
      LogRedis(window, ttl, log, Event.AddTurn(now, session, user, reply));
      log := log + [Event.AddTurn(now, session, user, reply)];
      var items := Range(session, now);
      PushedTrim(window, items, User(user), Assistant(reply));
      items := ListTrim(items + [User(user)] + [Assistant(reply)], -window * 2);
      lists := lists[session := Entry(items, now + ttl)];
    }

    /** The window of the session's own turns since its last clear or expiry. */
    method GetMessages(now: int, session: string) returns (messages: seq<Message>)
      requires Valid()
      ensures messages == Owed(window, log, session, Some(ttl), now)
    {
      RedisRefines(window, ttl, log, session, now);
      messages := Range(session, now);
    }

    method ClearSession(session: string, ghost now: int)
      requires Valid()
      modifies this
      ensures Valid() && log == old(log) + [Clear(now, session)]
      ensures lists == RedisStep(window, ttl, old(lists), Clear(now, session))
    {
      LogRedis(window, ttl, log, Clear(now, session));
      log := log + [Clear(now, session)];
      lists := lists - {session};
    }
  }

  // ---- Whole runs.

  /** After any interleaving of turns and clears of all sessions, the in-process store gives each session the
      window of its own live turns. */
  lemma {:induction false} MemoryRefines(w: int, events: seq<Event>, session: string, now: int)
    ensures ListIn(MemoryAfter(w, events), session) == Owed(w, events, session, None, now)
  {
    LiveTurns(events, session, None);
    if events != [] {
      var init, e := events[..|events| - 1], events[|events| - 1];
      MemoryRefines(w, init, session, now);
      LiveTurns(init, session, None);
      if e.AddTurn? && e.session == session { TrimAgain(w, Live(init, session, None), e); }
    }
  }

  /** And so does the Redis store at any later time, with turns that expired dropped from the log. */
  lemma {:induction false} RedisRefines(w: int, ttl: int, events: seq<Event>, session: string, now: int)
    ensures ItemsAt(RedisAfter(w, ttl, events), session, now) == Owed(w, events, session, Some(ttl), now)
  {
    RedisHolds(w, ttl, events, session);
  }

  lemma {:induction false} RedisHolds(w: int, ttl: int, events: seq<Event>, session: string)
    ensures HoldsLive(w, ttl, RedisAfter(w, ttl, events), session, Live(events, session, Some(ttl)))
  {
    if events != [] {
      var init, e := events[..|events| - 1], events[|events| - 1];
      RedisHolds(w, ttl, init, session);
      if e.session == session && e.AddTurn? {
        LiveStep(w, ttl, RedisAfter(w, ttl, init), session, Live(init, session, Some(ttl)), e);
      }
    }
  }

  /** The session's key holds the window of its live turns and expires with the last of them. */
  ghost predicate HoldsLive(w: int, ttl: int, m: map<string, Entry>, session: string, live: seq<Event>) {
    && (forall t :: t in live ==> t.AddTurn?)
    && (session in m <==> live != [])
    && (live != [] ==> m[session] == Entry(Window(w, live), live[|live| - 1].now + ttl))
  }

  lemma LiveStep(w: int, ttl: int, m: map<string, Entry>, session: string, live: seq<Event>, e: Event)
    requires HoldsLive(w, ttl, m, session, live) && e.AddTurn? && e.session == session
    ensures HoldsLive(w, ttl, RedisStep(w, ttl, m, e), session, Unexpired(live, e.now, Some(ttl)) + [e])
  {
    var turns := Unexpired(live, e.now, Some(ttl));
    TrimAgain(w, turns, e);
    assert ItemsAt(m, session, e.now) == Window(w, turns);
  }

  /** The last w turns, or all of them if there are fewer. */
  function LastTurns(w: nat, turns: seq<Event>): seq<Event> {
    if |turns| > w then turns[|turns| - w..] else turns
  }

  predicate AllTurns(turns: seq<Event>) {
    forall t :: t in turns ==> t.AddTurn?
  }

  /** Messages 2i and 2i + 1 are the turn's: what the user said, then the reply. */
  predicate IsTurn(messages: seq<Message>, i: nat, turn: Event) {
    && turn.AddTurn? && 2 * i + 1 < |messages|
    && messages[2 * i] == User(turn.user) && messages[2 * i + 1] == Assistant(turn.reply)
  }

  /** For W >= 1 the window consists of the last W turns, each whole and in its place, and session_info counts
      them. */
  lemma WholeTurns(w: int, turns: seq<Event>)
    requires w >= 1 && AllTurns(turns)
    ensures AllTurns(LastTurns(w, turns)) && Window(w, turns) == MessagesOf(LastTurns(w, turns))
    ensures var last := LastTurns(w, turns);
      |Window(w, turns)| == 2 * |last| && forall i :: 0 <= i < |last| ==> IsTurn(Window(w, turns), i, last[i])
    ensures |Window(w, turns)| / 2 == if |turns| < w then |turns| else w
  {
    if |turns| > w { WindowCut(w, turns); } else { WindowWhole(w, turns); }
    Halves(|LastTurns(w, turns)|);
    forall i | 0 <= i < |LastTurns(w, turns)| ensures IsTurn(Window(w, turns), i, LastTurns(w, turns)[i]) {
      TurnAt(LastTurns(w, turns), i);
    }
  }

  lemma WindowCut(w: int, turns: seq<Event>)
    requires w >= 1 && AllTurns(turns) && |turns| > w
    ensures AllTurns(LastTurns(w, turns)) && Window(w, turns) == MessagesOf(LastTurns(w, turns))
  {
    var k := |turns| - w;
    var last := turns[k..];
    MessagesSuffix(turns, k);
    assert LastTurns(w, turns) == last;
    calc {
      Window(w, turns);
      MessagesOf(turns)[2 * k..];
      MessagesOf(last);
    }
  }

  lemma WindowWhole(w: int, turns: seq<Event>)
    requires w >= 1 && AllTurns(turns) && |turns| <= w
    ensures LastTurns(w, turns) == turns && Window(w, turns) == MessagesOf(turns)
  {
    assert MessagesOf(turns)[0..] == MessagesOf(turns);
  }

  lemma Halves(n: nat)
    ensures 2 * n / 2 == n
  {
  }

  lemma {:induction false} MessagesSuffix(turns: seq<Event>, k: nat)
    requires AllTurns(turns) && k <= |turns|
    ensures AllTurns(turns[k..]) && MessagesOf(turns[k..]) == MessagesOf(turns)[2 * k..]
    decreases |turns|
  {
    if k < |turns| {
      var init, last := turns[..|turns| - 1], turns[|turns| - 1];
      assert turns[k..] == init[k..] + [last] && turns[k..][..|turns| - 1 - k] == init[k..];
      MessagesSuffix(init, k);
    }
  }

  /** The messages of turn i are the user's and then the assistant's. */
  lemma {:induction false} TurnAt(turns: seq<Event>, i: nat)
    requires i < |turns| && AllTurns(turns)
    ensures IsTurn(MessagesOf(turns), i, turns[i])
  {
    if i < |turns| - 1 {
      assert forall t :: t in turns[..|turns| - 1] ==> t in turns;
      TurnAt(turns[..|turns| - 1], i);
    }
  }

  // ---- The two backends against each other.

  /** The session's turns that Redis has not let expire by time now. */
  function Alive(events: seq<Event>, session: string, ttl: int, now: int): seq<Event> {
    Unexpired(Live(events, session, Some(ttl)), now, Some(ttl))
  }

  predicate IsSuffix(a: seq<Event>, b: seq<Event>) {
    |a| <= |b| && b[|b| - |a|..] == a
  }

  lemma SuffixSnoc(a: seq<Event>, b: seq<Event>, e: Event)
    requires IsSuffix(a, b)
    ensures IsSuffix(a + [e], b + [e])
  {
  }

  /** Expiry only ever drops the oldest turns. */
  lemma {:induction false} LiveSuffix(events: seq<Event>, session: string, ttl: int)
    ensures IsSuffix(Live(events, session, Some(ttl)), Live(events, session, None))
  {
    if events != [] {
      var init, e := events[..|events| - 1], events[|events| - 1];
      LiveSuffix(init, session, ttl);
      SuffixSnoc(Live(init, session, Some(ttl)), Live(init, session, None), e);
      SuffixSnoc([], Live(init, session, None), e);
    }
  }

  /** The window of a suffix of the turns is that of all of them exactly when it has enough of them. */
  lemma WindowOfSuffix(w: int, a: seq<Event>, b: seq<Event>)
    requires AllTurns(a) && AllTurns(b) && IsSuffix(a, b)
    ensures Window(w, a) == Window(w, b) <==> w < 0 || |a| == |b| || 1 <= w <= |a|
  {
    if w >= 1 {
      WholeTurns(w, a);
      WholeTurns(w, b);
      if w <= |a| { assert LastTurns(w, a) == LastTurns(w, b); }
    }
  }

  /** The two backends give the same messages exactly when nothing has expired that the window needs: for W >= 1
      when at least min(W, live turns) turns are left, for W = 0 when all are, and for W < 0 always. */
  lemma BackendsAgree(w: int, ttl: int, events: seq<Event>, session: string, now: int)
    ensures var live, alive := |Live(events, session, None)|, |Alive(events, session, ttl, now)|;
      ListIn(MemoryAfter(w, events), session) == ItemsAt(RedisAfter(w, ttl, events), session, now)
      <==> w < 0 || alive >= if 1 <= w < live then w else live
  {
    var live, alive := Live(events, session, None), Alive(events, session, ttl, now);
    MemoryRefines(w, events, session, now);
    RedisRefines(w, ttl, events, session, now);
    LiveSuffix(events, session, ttl);
    LiveTurns(events, session, None);
    LiveTurns(events, session, Some(ttl));
    WindowOfSuffix(w, alive, live);
  }
}
