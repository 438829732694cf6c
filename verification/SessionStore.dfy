/** The session store of session_impl.go: rows of text, and the set of sessions they stand for. */
module SessionStore {
  import opened Common
  import opened TimeText
  import Ordering

  datatype SessionRecord = SessionRecord(
    id: string, subject: string, device: string,
    startedAt: Instant, lastUsedAt: Instant, expiresAt: Instant, endedAt: Option<Instant>)
  {
    predicate Ended() {
      endedAt.Some?
    }

    predicate Live(now: Instant) {
      !Ended() && now < expiresAt
    }
  }

  datatype SessionStart = SessionStart(subject: string, token: string, device: string, at: Instant, expiresAt: Instant)

  datatype SessionError = Invalid | NotFound | Conflict

  // ----- The abstract set of sessions -----

  /** A session and the token it was started with, which the table never holds. */
  datatype Session = Session(record: SessionRecord, token: string)
  type Sessions = map<string, Session>

  datatype Op =
    | Start(id: string, start: SessionStart, now: Instant)
    | Touch(id: string, at: Instant)
    | End(subject: string, id: string, at: Instant)

  function StartInstant(start: SessionStart, now: Instant): Instant {
    if start.at == ZERO_TIME then now else start.at
  }

  function NewRecord(id: string, start: SessionStart, now: Instant): SessionRecord {
    var at := StartInstant(start, now);
    SessionRecord(id, start.subject, start.device, at, at, start.expiresAt, None)
  }

  predicate Taken(m: Sessions, id: string, token: string) {
    id in m || exists k :: k in m && m[k].token == token
  }

  function StartAnswer(m: Sessions, id: string, start: SessionStart, now: Instant)
    : Result<SessionRecord, SessionError>
  {
    if Blank(start.subject) || start.token == "" || start.expiresAt <= StartInstant(start, now) then Err(Invalid)
    else if Taken(m, id, start.token) then Err(Conflict)
    else Ok(NewRecord(id, start, now))
  }

  predicate Open(m: Sessions, id: string) {
    id in m && !m[id].record.Ended()
  }

  predicate Holds(m: Sessions, subject: string, id: string) {
    subject != "" && id != "" && id in m && m[id].record.subject == subject
  }

  function Apply(m: Sessions, op: Op): Sessions {
    match op
    case Start(id, start, now) =>
      if StartAnswer(m, id, start, now).Ok? then m[id := Session(NewRecord(id, start, now), start.token)] else m
    case Touch(id, at) =>
      if Open(m, id) && m[id].record.lastUsedAt < at
      then m[id := m[id].(record := m[id].record.(lastUsedAt := at))] else m
    case End(subject, id, at) =>
      if Holds(m, subject, id) && Open(m, id)
      then m[id := m[id].(record := m[id].record.(endedAt := Some(at)))] else m
  }

  function Run(m: Sessions, ops: seq<Op>): Sessions
    decreases ops
  {
    if ops == [] then m else Run(Apply(m, ops[0]), ops[1..])
  }

  /** Ids name their own records, tokens are never shared, and no use precedes the start. */
  ghost predicate Sound(m: Sessions) {
    (forall id :: SoundAt(m, id)) && (forall a, b :: OwnTokens(m, a, b))
  }

  predicate SoundAt(m: Sessions, id: string) {
    id in m ==>
      var r := m[id].record;
      r.id == id && !Blank(r.subject) && m[id].token != "" && r.startedAt <= r.lastUsedAt && r.startedAt < r.expiresAt
  }

  predicate OwnTokens(m: Sessions, a: string, b: string) {
    a in m && b in m && m[a].token == m[b].token ==> a == b
  }

  lemma StepKeepsSound(m: Sessions, op: Op)
    requires Sound(m)
    ensures Sound(Apply(m, op))
  {
    var n := Apply(m, op);
    forall id ensures SoundAt(n, id) {
      assert SoundAt(m, id);
    }
    forall a, b ensures OwnTokens(n, a, b) {
      assert OwnTokens(m, a, b);
    }
  }

  lemma {:induction false} EveryRunIsSound(m: Sessions, ops: seq<Op>)
    requires Sound(m)
    ensures Sound(Run(m, ops))
    decreases ops
  {
    if ops != [] {
      StepKeepsSound(m, ops[0]);
      EveryRunIsSound(Apply(m, ops[0]), ops[1..]);
    }
  }

  /** What time does to one session: it only moves forward, and an ended one never changes again. */
  predicate Follows(a: Session, b: Session) {
    && b == Session(a.record.(lastUsedAt := b.record.lastUsedAt, endedAt := b.record.endedAt), a.token)
    && a.record.lastUsedAt <= b.record.lastUsedAt
    && (a.record.Ended() ==> b == a)
  }

  lemma {:induction false} SessionsOnlyMoveForward(m: Sessions, ops: seq<Op>, id: string)
    requires id in m
    ensures id in Run(m, ops) && Follows(m[id], Run(m, ops)[id])
    decreases ops
  {
    if ops != [] {
      SessionsOnlyMoveForward(Apply(m, ops[0]), ops[1..], id);
    }
  }

  /** A session is ended only by its own subject: a run in which the subject ends nothing leaves it open. */
  lemma {:induction false} OnlyItsSubjectEndsASession(m: Sessions, ops: seq<Op>, id: string)
    requires Open(m, id)
    requires forall i :: 0 <= i < |ops| && ops[i].End? && ops[i].id == id ==> ops[i].subject != m[id].record.subject
    ensures Open(Run(m, ops), id)
    decreases ops
  {
    if ops != [] {
      var n := Apply(m, ops[0]);
      assert Open(n, id) && n[id].record.subject == m[id].record.subject;
      OnlyItsSubjectEndsASession(n, ops[1..], id);
    }
  }

  // ----- What each operation does, field by field -----

  /** What a start makes of a good request, and when it is good. */
  lemma StartLaw(m: Sessions, id: string, start: SessionStart, now: Instant)
    ensures var at := if start.at == ZERO_TIME then now else start.at;
            var invalid := Blank(start.subject) || start.token == "" || start.expiresAt <= at;
            var taken := id in m || exists k :: k in m && m[k].token == start.token;
            var record := SessionRecord(id, start.subject, start.device, at, at, start.expiresAt, None);
            && StartAnswer(m, id, start, now)
               == (if invalid then Err(Invalid) else if taken then Err(Conflict) else Ok(record))
            && Apply(m, Start(id, start, now))
               == (if invalid || taken then m else m[id := Session(record, start.token)])
  {
  }

  /** A touch of an open session leaves its last use at the later of what it was and the touch's own instant. */
  lemma TouchLaw(m: Sessions, id: string, at: Instant)
    ensures var n := Apply(m, Touch(id, at));
            if id in m && m[id].record.endedAt.None? then
              var r := m[id].record;
              n == m[id := m[id].(record := r.(lastUsedAt := if r.lastUsedAt < at then at else r.lastUsedAt))]
            else n == m
  {
    if id in m {
      assert m[id].(record := m[id].record.(lastUsedAt := m[id].record.lastUsedAt)) == m[id];
      assert m[id := m[id]] == m;
    }
  }

  /** The first ending by the session's own subject leaves its own instant; nothing else ends it. */
  lemma EndLaw(m: Sessions, subject: string, id: string, at: Instant)
    ensures Apply(m, End(subject, id, at))
            == if && subject != "" && id != "" && id in m && m[id].record.subject == subject
                  && m[id].record.endedAt.None?
               then m[id := m[id].(record := m[id].record.(endedAt := Some(at)))] else m
  {
  }

  lemma {:induction false} RunOneMore(m: Sessions, ops: seq<Op>, op: Op)
    ensures Run(m, ops + [op]) == Apply(Run(m, ops), op)
    decreases ops
  {
    if ops == [] {
      assert ops + [op] == [op] && [op][1..] == [];
    } else {
      RunOneMore(Apply(m, ops[0]), ops[1..], op);
      assert (ops + [op])[1..] == ops[1..] + [op];
    }
  }

  lemma RunLast(m: Sessions, ops: seq<Op>)
    requires ops != []
    ensures Run(m, ops) == Apply(Run(m, ops[..|ops| - 1]), ops[|ops| - 1])
  {
    RunOneMore(m, ops[..|ops| - 1], ops[|ops| - 1]);
    assert ops[..|ops| - 1] + [ops[|ops| - 1]] == ops;
  }

  /** The i-th operation is a touch of the session, open at the time. */
  predicate TouchesAt(m: Sessions, ops: seq<Op>, i: nat, id: string, at: Instant)
    requires i < |ops|
  {
    var before := Run(m, ops[..i]);
    ops[i] == Touch(id, at) && id in before && before[id].record.endedAt.None?
  }

  /** Last use is the start or the instant of a touch that reached the session open, and no earlier than any. */
  lemma {:induction false} LastUseIsTheLatestTouch(ops: seq<Op>, id: string)
    requires id in Run(map[], ops)
    ensures var r := Run(map[], ops)[id].record;
            && (r.lastUsedAt == r.startedAt || exists i :: 0 <= i < |ops| && TouchesAt(map[], ops, i, id, r.lastUsedAt))
            && r.startedAt <= r.lastUsedAt
            && forall i, at: Instant :: 0 <= i < |ops| && TouchesAt(map[], ops, i, id, at) ==> at <= r.lastUsedAt
  {
    var prev, op := ops[..|ops| - 1], ops[|ops| - 1];
    var m, r := Run(map[], prev), Run(map[], ops)[id].record;
    RunLast(map[], ops);
    EveryRunIsSound(map[], ops);
    assert SoundAt(Run(map[], ops), id);
    assert forall i :: 0 <= i < |prev| ==> prev[..i] == ops[..i];
    if id in m {
      LastUseIsTheLatestTouch(prev, id);
      if i :| 0 <= i < |prev| && TouchesAt(map[], prev, i, id, m[id].record.lastUsedAt) {
        assert TouchesAt(map[], ops, i, id, m[id].record.lastUsedAt);
      }
      if op.Touch? {
        TouchLaw(m, op.id, op.at);
        assert r.lastUsedAt != m[id].record.lastUsedAt ==> TouchesAt(map[], ops, |prev|, id, r.lastUsedAt);
      }
      forall i, at: Instant | 0 <= i < |ops| && TouchesAt(map[], ops, i, id, at) ensures at <= r.lastUsedAt {
        if i < |prev| {
          assert TouchesAt(map[], prev, i, id, at);
        }
      }
    } else {
      forall i, at: Instant | 0 <= i < |ops| ensures !TouchesAt(map[], ops, i, id, at) {
        if TouchesAt(map[], ops, i, id, at) && i < |prev| {
          NoneLost(map[], prev, i, id);
        }
      }
    }
  }

  lemma {:induction false} NoneLost(m: Sessions, ops: seq<Op>, i: nat, id: string)
    requires i <= |ops| && id in Run(m, ops[..i])
    ensures id in Run(m, ops) && Follows(Run(m, ops[..i])[id], Run(m, ops)[id])
  {
    if i == |ops| {
      assert ops[..i] == ops;
    } else {
      RunLast(m, ops);
      assert ops[..|ops| - 1][..i] == ops[..i];
      NoneLost(m, ops[..|ops| - 1], i, id);
    }
  }

  /** The i-th operation is an ending of the session by its own subject, the session open at the time. */
  predicate EndsAt(m: Sessions, ops: seq<Op>, i: nat, id: string, at: Instant)
    requires i < |ops|
  {
    var before := Run(m, ops[..i]);
    && id != "" && id in before && before[id].record.endedAt.None?
    && ops[i] == End(before[id].record.subject, id, at)
  }

  /** A session is ended exactly at the instant of the one ending by its own subject that found it open. */
  lemma {:induction false} EndIsTheFirstEnding(ops: seq<Op>, id: string, at: Instant)
    requires id in Run(map[], ops)
    ensures Run(map[], ops)[id].record.endedAt == Some(at)
            <==> exists i :: 0 <= i < |ops| && EndsAt(map[], ops, i, id, at)
  {
    var prev, op := ops[..|ops| - 1], ops[|ops| - 1];
    var m := Run(map[], prev);
    RunLast(map[], ops);
    assert forall i :: 0 <= i < |prev| ==> prev[..i] == ops[..i];
    forall i | 0 <= i < |prev| ensures EndsAt(map[], ops, i, id, at) <==> EndsAt(map[], prev, i, id, at) {
    }
    if id in m {
      EveryRunIsSound(map[], prev);
      assert SoundAt(m, id);
      EndIsTheFirstEnding(prev, id, at);
      assert EndsAt(map[], ops, |prev|, id, at)
        <==> id != "" && m[id].record.endedAt.None? && op == End(m[id].record.subject, id, at);
      if i :| 0 <= i < |prev| && EndsAt(map[], prev, i, id, at) {
        assert EndsAt(map[], ops, i, id, at);
      }
    } else {
      forall i | 0 <= i < |ops| ensures !EndsAt(map[], ops, i, id, at) {
        if EndsAt(map[], ops, i, id, at) && i < |prev| {
          NoneLost(map[], prev, i, id);
        }
      }
    }
  }

  // ----- Rows -----

  datatype SessionRow = SessionRow(
    id: string, subject: string, tokenDigest: string, device: string,
    startedAt: string, lastUsedAt: string, expiresAt: string, endedAt: Option<string>)

  /** How columns are written: the token's digest, and instants as text and back. */
  datatype Columns = Columns(digest: string -> string, encode: Instant -> string, decode: string -> Instant)

  /** No two tokens share a digest, and text is never empty, reads back, and sorts as time does. */
  ghost predicate Faithful(c: Columns) {
    && (forall a, b :: NoCollision(c, a, b))
    && (forall t :: ReadsBack(c, t))
    && (forall t, u :: KeepsOrder(c, t, u))
  }

  predicate NoCollision(c: Columns, a: string, b: string) {
    c.digest(a) == c.digest(b) ==> a == b
  }

  predicate ReadsBack(c: Columns, t: Instant) {
    c.encode(t) != "" && c.decode(c.encode(t)) == t
  }

  predicate KeepsOrder(c: Columns, t: Instant, u: Instant) {
    Before(c.encode(t), c.encode(u)) <==> t < u
  }

  function TimeOf(s: string): Instant {
    var t := ParseTime(s);
    if t.Some? && -366 * DAY <= t.value < 3_652_059 * DAY then t.value else ZERO_TIME
  }

  /** storedTime is such a text, so any digest without collisions makes faithful columns. */
  lemma {:induction false} StoredTimeIsFaithful(digest: string -> string)
    requires forall a, b :: digest(a) == digest(b) ==> a == b
    ensures Faithful(Columns(digest, (t: Instant) => StoredTime(t), s => TimeOf(s)))
  {
    var c := Columns(digest, (t: Instant) => StoredTime(t), s => TimeOf(s));
    forall t ensures ReadsBack(c, t) {
      ParseOfStored(t);
    }
    forall t, u ensures KeepsOrder(c, t, u) {
      TextOrderIsTimeOrder(t, u);
    }
  }

  function Stored(s: Session, c: Columns): SessionRow {
    var r := s.record;
    SessionRow(r.id, r.subject, c.digest(s.token), r.device,
               c.encode(r.startedAt), c.encode(r.lastUsedAt), c.encode(r.expiresAt),
               if r.endedAt.None? then None else Some(c.encode(r.endedAt.value)))
  }

  /** sessionRow.record, reading the columns back. */
  function RecordOf(r: SessionRow, c: Columns): SessionRecord {
    SessionRecord(r.id, r.subject, r.device, c.decode(r.startedAt), c.decode(r.lastUsedAt), c.decode(r.expiresAt),
                  if Unset(r.endedAt) then None else Some(c.decode(r.endedAt.value)))
  }

  /** A text column is absent when it is null or empty. */
  predicate Unset(column: Option<string>) {
    column.None? || column.value == ""
  }

  predicate LiveRow(r: SessionRow, now: Instant, c: Columns) {
    Unset(r.endedAt) && Before(c.encode(now), r.expiresAt)
  }

  /** The row reads back as the session, and the filter over text is SessionRecord.Live. */
  lemma {:induction false} RowStandsForSession(s: Session, now: Instant, c: Columns)
    requires Faithful(c)
    ensures RecordOf(Stored(s, c), c) == s.record
    ensures LiveRow(Stored(s, c), now, c) <==> s.record.endedAt.None? && now < s.record.expiresAt
    ensures s.record.Live(now) <==> s.record.endedAt.None? && now < s.record.expiresAt
  {
    var r := s.record;
    assert ReadsBack(c, r.startedAt) && ReadsBack(c, r.lastUsedAt) && ReadsBack(c, r.expiresAt);
    assert r.endedAt.Some? ==> ReadsBack(c, r.endedAt.value);
    assert KeepsOrder(c, now, r.expiresAt);
  }

  lemma UnsetMeansOpen(s: Session, c: Columns)
    requires Faithful(c)
    ensures Unset(Stored(s, c).endedAt) <==> !s.record.Ended()
  {
    assert s.record.endedAt.Some? ==> ReadsBack(c, s.record.endedAt.value);
  }

  /** ORDER BY last_used_at DESC, id. */
  predicate RowBefore(a: SessionRow, b: SessionRow) {
    Before(b.lastUsedAt, a.lastUsedAt) || (a.lastUsedAt == b.lastUsedAt && Before(a.id, b.id))
  }

  predicate RecordBefore(a: SessionRecord, b: SessionRecord) {
    b.lastUsedAt < a.lastUsedAt || (a.lastUsedAt == b.lastUsedAt && Before(a.id, b.id))
  }

  lemma RowOrderIsTransitive()
    ensures Ordering.Transitive(RowBefore)
  {
    forall a, b, c | RowBefore(a, b) && RowBefore(b, c) ensures RowBefore(a, c) {
      if Before(b.lastUsedAt, a.lastUsedAt) && Before(c.lastUsedAt, b.lastUsedAt) {
        BeforeIsTransitive(c.lastUsedAt, b.lastUsedAt, a.lastUsedAt);
      } else if a.lastUsedAt == b.lastUsedAt == c.lastUsedAt {
        BeforeIsTransitive(a.id, b.id, c.id);
      }
    }
  }

  lemma RowOrderIsTotal(a: SessionRow, b: SessionRow)
    requires a.id != b.id
    ensures RowBefore(a, b) || RowBefore(b, a)
  {
    BeforeIsTotal(a.lastUsedAt, b.lastUsedAt);
    BeforeIsTotal(a.id, b.id);
  }

  lemma RowOrderIsTimeOrder(a: Session, b: Session, c: Columns)
    requires Faithful(c)
    ensures RowBefore(Stored(a, c), Stored(b, c)) <==> RecordBefore(a.record, b.record)
  {
    var t, u := a.record.lastUsedAt, b.record.lastUsedAt;
    assert ReadsBack(c, t) && ReadsBack(c, u) && KeepsOrder(c, u, t);
  }

  class Store {
    const columns: Columns
    var rows: map<string, SessionRow>
    ghost var sessions: Sessions

    ghost predicate Valid()
      reads this
    {
      && Faithful(columns)
      && Sound(sessions)
      && rows.Keys == sessions.Keys
      && forall id :: id in rows ==> rows[id] == Stored(sessions[id], columns)
    }

    /** `digest` is tokenDigest, the hex SHA-256, taken to be without collisions. */
    constructor (digest: string -> string)
      requires forall a, b :: digest(a) == digest(b) ==> a == b
      ensures Valid() && sessions == map[]
      ensures columns == Columns(digest, (t: Instant) => StoredTime(t), s => TimeOf(s))
    {
      columns := Columns(digest, (t: Instant) => StoredTime(t), s => TimeOf(s));
      rows, sessions := map[], map[];
      new;
      StoredTimeIsFaithful(digest);
    }

    /** `id` is the freshly minted "session-" id and `now` the clock, read when the caller gives no instant. */
    method Start(id: string, start: SessionStart, now: Instant) returns (r: Result<SessionRecord, SessionError>)
      requires Valid()
      modifies this
      ensures Valid()
      ensures var at := if start.at == ZERO_TIME then now else start.at;
              var invalid := Blank(start.subject) || start.token == "" || start.expiresAt <= at;
              var was := old(sessions);
              var taken := id in was || exists k :: k in was && was[k].token == start.token;
              var record := SessionRecord(id, start.subject, start.device, at, at, start.expiresAt, None);
              && r == (if invalid then Err(Invalid) else if taken then Err(Conflict) else Ok(record))
              && sessions == if invalid || taken then was else was[id := Session(record, start.token)]
      ensures r == StartAnswer(old(sessions), id, start, now)
      ensures sessions == Apply(old(sessions), Op.Start(id, start, now))
    {
      StartLaw(sessions, id, start, now);
      var at := if start.at == ZERO_TIME then now else start.at;
      if Blank(start.subject) || start.token == "" || !(at < start.expiresAt) {
        return Err(Invalid);
      }
      ghost var s := Session(NewRecord(id, start, now), start.token);
      var row := SessionRow(id, start.subject, columns.digest(start.token), start.device,
                            columns.encode(at), columns.encode(at), columns.encode(start.expiresAt), None);
      assert row == Stored(s, columns);
      forall k | k in rows ensures rows[k].tokenDigest == row.tokenDigest <==> sessions[k].token == start.token {
        assert NoCollision(columns, sessions[k].token, start.token);
      }
      if id in rows || exists k :: k in rows && rows[k].tokenDigest == row.tokenDigest {
        return Err(Conflict);
      }
      StepKeepsSound(sessions, Op.Start(id, start, now));
      rows := rows[id := row];
      sessions := sessions[id := s];
      RowStandsForSession(s, now, columns);
      return Ok(RecordOf(row, columns));
    }

    method ByToken(token: string, now: Instant) returns (r: Result<SessionRecord, SessionError>)
      requires Valid()
      ensures r.Ok? ==> exists id :: id in sessions && sessions[id].token == token && sessions[id].record == r.value
      ensures r.Ok? ==> r.value.Live(now) && r.value.endedAt.None? && now < r.value.expiresAt
      ensures r.Err? ==> r.error == NotFound
      ensures forall id :: && id in sessions && sessions[id].token == token
                           && sessions[id].record.endedAt.None? && now < sessions[id].record.expiresAt ==>
                             r == Ok(sessions[id].record)
    {
      forall id | id in sessions ensures sessions[id].token != "" {
        assert SoundAt(sessions, id);
      }
      if token == "" {
        return Err(NotFound);
      }
      forall k | k in rows
        ensures LiveRow(rows[k], now, columns) <==> sessions[k].record.Live(now)
        ensures RecordOf(rows[k], columns) == sessions[k].record
        ensures rows[k].tokenDigest == columns.digest(token) <==> sessions[k].token == token
      {
        RowStandsForSession(sessions[k], now, columns);
        assert NoCollision(columns, sessions[k].token, token);
      }
      if k :| k in rows && LiveRow(rows[k], now, columns) && rows[k].tokenDigest == columns.digest(token) {
        forall id | id in sessions && sessions[id].token == token ensures id == k {
          assert OwnTokens(sessions, id, k);
        }
        return Ok(RecordOf(rows[k], columns));
      }
      return Err(NotFound);
    }

    method Touch(id: string, at: Instant) returns (r: Result<(), SessionError>)
      requires Valid()
      modifies this
      ensures Valid()
      ensures r == if id in old(sessions) && old(sessions)[id].record.endedAt.None? then Ok(()) else Err(NotFound)
      ensures if r.Ok? then
                var was := old(sessions)[id].record;
                var used := if was.lastUsedAt < at then at else was.lastUsedAt;
                sessions == old(sessions)[id := old(sessions)[id].(record := was.(lastUsedAt := used))]
              else sessions == old(sessions)
      ensures sessions == Apply(old(sessions), Op.Touch(id, at))
    {
      TouchLaw(sessions, id, at);
      var stamp := columns.encode(at);
      if id in rows {
        UnsetMeansOpen(sessions[id], columns);
        assert KeepsOrder(columns, sessions[id].record.lastUsedAt, at);
      }
      if id in rows && Unset(rows[id].endedAt) && Before(rows[id].lastUsedAt, stamp) {
        StepKeepsSound(sessions, Op.Touch(id, at));
        rows := rows[id := rows[id].(lastUsedAt := stamp)];
        sessions := sessions[id := sessions[id].(record := sessions[id].record.(lastUsedAt := at))];
        return Ok(());
      }
      return if id in rows && Unset(rows[id].endedAt) then Ok(()) else Err(NotFound);
    }

    method End(subject: string, id: string, at: Instant) returns (r: Result<(), SessionError>)
      requires Valid()
      modifies this
      ensures Valid()
      ensures r == if subject != "" && id != "" && id in old(sessions) && old(sessions)[id].record.subject == subject
                   then Ok(()) else Err(NotFound)
      ensures if r.Ok? && old(sessions)[id].record.endedAt.None? then
                var was := old(sessions)[id];
                sessions == old(sessions)[id := was.(record := was.record.(endedAt := Some(at)))]
              else sessions == old(sessions)
      ensures sessions == Apply(old(sessions), Op.End(subject, id, at))
    {
      EndLaw(sessions, subject, id, at);
      if subject == "" || id == "" {
        return Err(NotFound);
      }
      if id in rows {
        UnsetMeansOpen(sessions[id], columns);
      }
      if id in rows && rows[id].subject == subject && Unset(rows[id].endedAt) {
        StepKeepsSound(sessions, Op.End(subject, id, at));
        rows := rows[id := rows[id].(endedAt := Some(columns.encode(at)))];
        sessions := sessions[id := sessions[id].(record := sessions[id].record.(endedAt := Some(at)))];
        return Ok(());
      }
      return if id in rows && rows[id].subject == subject then Ok(()) else Err(NotFound);
    }

    /** The subject's live sessions, most recently used first. */
    method ListLive(subject: string, now: Instant) returns (out: seq<SessionRecord>)
      requires Valid()
      ensures forall i, j :: 0 <= i < j < |out| ==>
                               || out[i].lastUsedAt > out[j].lastUsedAt
                               || (out[i].lastUsedAt == out[j].lastUsedAt && Before(out[i].id, out[j].id))
      ensures forall r :: r in out
                          <==> && r.id in sessions && sessions[r.id].record == r && r.subject == subject
                               && r.endedAt.None? && now < r.expiresAt
    {
      forall k | k in rows ensures rows[k].id == k {
        assert SoundAt(sessions, k);
      }
      var found := LiveRows(rows, subject, now, columns);
      forall k | k in rows
        ensures LiveRow(rows[k], now, columns) <==> sessions[k].record.Live(now)
        ensures RecordOf(rows[k], columns) == sessions[k].record
      {
        RowStandsForSession(sessions[k], now, columns);
      }
      out := [];
      for i := 0 to |found|
        invariant |out| == i
        invariant forall j :: 0 <= j < i ==> out[j] == sessions[found[j].id].record
      {
        assert found[i] in found;
        out := out + [RecordOf(found[i], columns)];
      }
      ListedInOrder(found, out);
      ListedExactly(found, out, subject, now);
    }

    lemma ListedExactly(found: seq<SessionRow>, out: seq<SessionRecord>, subject: string, now: Instant)
      requires Valid() && |out| == |found|
      requires forall j :: 0 <= j < |found| ==> found[j].id in rows && rows[found[j].id] == found[j]
      requires forall j :: 0 <= j < |found| ==> out[j] == sessions[found[j].id].record
      requires forall r :: r in found ==> Listed(r, subject, now, columns)
      requires forall id :: id in rows && Listed(rows[id], subject, now, columns) ==> rows[id] in found
      ensures forall r :: r in out
                          <==> && r.id in sessions && sessions[r.id].record == r && r.subject == subject
                               && r.endedAt.None? && now < r.expiresAt
    {
      forall r ensures r in out <==> && r.id in sessions && sessions[r.id].record == r && r.subject == subject
                                     && r.endedAt.None? && now < r.expiresAt
      {
        if r in out {
          var j :| 0 <= j < |out| && out[j] == r;
          assert found[j] in found && SoundAt(sessions, found[j].id);
          RowStandsForSession(sessions[found[j].id], now, columns);
        }
        if && r.id in sessions && sessions[r.id].record == r && r.subject == subject
           && r.endedAt.None? && now < r.expiresAt
        {
          RowStandsForSession(sessions[r.id], now, columns);
          var j :| 0 <= j < |found| && found[j] == rows[r.id];
          assert SoundAt(sessions, r.id) && out[j] == r;
        }
      }
    }

    lemma ListedInOrder(found: seq<SessionRow>, out: seq<SessionRecord>)
      requires Valid() && |out| == |found| && Ordering.Ordered(RowBefore, found)
      requires forall j :: 0 <= j < |found| ==> found[j].id in rows && rows[found[j].id] == found[j]
      requires forall j :: 0 <= j < |found| ==> out[j] == sessions[found[j].id].record
      ensures forall i, j :: 0 <= i < j < |out| ==>
                               || out[i].lastUsedAt > out[j].lastUsedAt
                               || (out[i].lastUsedAt == out[j].lastUsedAt && Before(out[i].id, out[j].id))
    {
      forall i, j | 0 <= i < j < |out| ensures RecordBefore(out[i], out[j]) {
        assert RowBefore(found[i], found[j]);
        RowOrderIsTimeOrder(sessions[found[i].id], sessions[found[j].id], columns);
      }
    }
  }

  lemma InsertRow(row: SessionRow, found: seq<SessionRow>)
    requires Ordering.Ordered(RowBefore, found) && forall r :: r in found ==> r.id != row.id
    ensures Ordering.Ordered(RowBefore, Ordering.Insert(RowBefore, row, found))
  {
    RowOrderIsTransitive();
    forall r | r in found ensures RowBefore(row, r) || RowBefore(r, row) {
      RowOrderIsTotal(row, r);
    }
    Ordering.InsertKeepsOrder(RowBefore, row, found);
  }

  predicate Listed(r: SessionRow, subject: string, now: Instant, c: Columns) {
    r.subject == subject && LiveRow(r, now, c)
  }

  /** The ordered query behind ListLive. */
  method LiveRows(rows: map<string, SessionRow>, subject: string, now: Instant, c: Columns)
    returns (found: seq<SessionRow>)
    requires forall id :: id in rows ==> rows[id].id == id
    ensures Ordering.Ordered(RowBefore, found)
    ensures forall r :: r in found ==> r.id in rows && rows[r.id] == r && Listed(r, subject, now, c)
    ensures forall id :: id in rows && Listed(rows[id], subject, now, c) ==> rows[id] in found
  {
    found := [];
    var todo := rows.Keys;
    while todo != {}
      invariant todo <= rows.Keys
      invariant Ordering.Ordered(RowBefore, found)
      invariant forall r :: r in found ==> r.id in rows.Keys - todo && rows[r.id] == r && Listed(r, subject, now, c)
      invariant forall id :: id in rows.Keys - todo && Listed(rows[id], subject, now, c) ==> rows[id] in found
      decreases todo
    {
      var k :| k in todo;
      todo := todo - {k};
      if Listed(rows[k], subject, now, c) {
        InsertRow(rows[k], found);
        found := Ordering.Insert(RowBefore, rows[k], found);
      }
    }
  }
}
