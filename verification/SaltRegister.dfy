/** The key phone numbers are hashed under, and its versions: phonesalt_impl.go over a table with
    provision.go's unique index on live rows. */
module SaltRegister {
  import opened Common
  import Ordering

  datatype Salt = Salt(id: int, secret: seq<byte>, setAt: int, setBy: string, retiredAt: Option<int>, retiredBy: string)
  {
    function Public(): PublicSalt {
      PublicSalt(id, setAt, setBy, retiredAt, retiredBy)
    }
  }

  /** models.Salt: a version's facts without its key. */
  datatype PublicSalt = PublicSalt(id: int, setAt: int, setBy: string, retiredAt: Option<int>, retiredBy: string)

  datatype SaltError = NotFound | AlreadyLive | AlreadyRetired | NoActor | NoRow

  /** The table, by primary key. */
  type Rows = map<int, Salt>

  /** HMAC-SHA-256 of a phone number under a key. */
  type Mac = (seq<byte>, string) -> seq<byte>

  predicate IsLive(m: Rows, id: int) {
    id in m && m[id].retiredAt.None?
  }

  predicate SomeLive(m: Rows) {
    exists id :: id in m && IsLive(m, id)
  }

  // ----- What each statement does -----

  /** The insert; the primary key and the one-live index refuse it together. */
  function AfterProvision(m: Rows, id: int, secret: seq<byte>, setBy: string, now: int): Rows {
    if id in m || SomeLive(m) then m else m[id := Salt(id, secret, now, setBy, None, "")]
  }

  function ProvisionAnswer(m: Rows, id: int, setBy: string, now: int): Result<PublicSalt, SaltError> {
    if id in m || SomeLive(m) then Err(AlreadyLive) else Ok(PublicSalt(id, now, setBy, None, ""))
  }

  function AfterRetire(m: Rows, id: int, retiredBy: string, now: int): Rows {
    if retiredBy != "" && IsLive(m, id) then m[id := m[id].(retiredAt := Some(now), retiredBy := retiredBy)] else m
  }

  // ----- What every reachable table keeps -----

  ghost predicate Sound(m: Rows) {
    && (forall id :: id in m ==> m[id].id == id && (m[id].retiredAt.Some? <==> m[id].retiredBy != ""))
    && (forall i, j :: IsLive(m, i) && IsLive(m, j) ==> i == j)
  }

  /** Rows are never removed; a key and who set it never change; a retirement is written once, whole. */
  predicate Onward(m: Rows, n: Rows, id: int) {
    id in m ==>
      && id in n
      && n[id].(retiredAt := None, retiredBy := "") == m[id].(retiredAt := None, retiredBy := "")
      && (m[id].retiredAt.Some? ==> n[id] == m[id])
  }

  // ----- What each operation does, field by field -----

  /** A salt is stored as given, live, exactly when its id is unused and no stored salt is live. */
  lemma ProvisionLaw(m: Rows, id: int, secret: seq<byte>, setBy: string, now: int)
    ensures var refused := id in m || exists i :: i in m && m[i].retiredAt.None?;
            && AfterProvision(m, id, secret, setBy, now)
               == (if refused then m else m[id := Salt(id, secret, now, setBy, None, "")])
            && ProvisionAnswer(m, id, setBy, now)
               == if refused then Err(AlreadyLive) else Ok(PublicSalt(id, now, setBy, None, ""))
  {
    if SomeLive(m) {
      var i :| i in m && IsLive(m, i);
      assert m[i].retiredAt.None?;
    }
    if i :| i in m && m[i].retiredAt.None? {
      assert IsLive(m, i);
    }
  }

  /** A retirement writes its instant and its actor on a live row, and nothing else anywhere. */
  lemma RetireLaw(m: Rows, id: int, retiredBy: string, now: int)
    ensures AfterRetire(m, id, retiredBy, now)
            == if retiredBy == "" || id !in m || m[id].retiredAt.Some? then m
               else
                 var s := m[id];
                 m[id := Salt(s.id, s.secret, s.setAt, s.setBy, Some(now), retiredBy)]
  {
  }

  predicate NewestFirst(a: Salt, b: Salt) {
    a.id > b.id
  }

  class PhoneSaltStore {
    var rows: Rows
    const mac: Mac

    constructor (mac: Mac)
      ensures rows == map[] && this.mac == mac
    {
      rows, this.mac := map[], mac;
    }

    method Provision(id: int, secret: seq<byte>, setBy: string, now: int) returns (r: Result<PublicSalt, SaltError>)
      modifies this`rows
      ensures rows == AfterProvision(old(rows), id, secret, setBy, now)
      ensures r == ProvisionAnswer(old(rows), id, setBy, now)
      ensures var m := old(rows);
              if id in m || exists i :: i in m && m[i].retiredAt.None? then rows == m && r == Err(AlreadyLive)
              else
                && rows == m[id := Salt(id, secret, now, setBy, None, "")]
                && r == Ok(PublicSalt(id, now, setBy, None, ""))
    {
      ProvisionLaw(rows, id, secret, setBy, now);
      var taken := SomeLive(rows);
      if id in rows || taken {
        return Err(AlreadyLive);
      }
      var rec := Salt(id, secret, now, setBy, None, "");
      rows := rows[id := rec];
      return Ok(rec.Public());
    }

    /** The guarded update, then the read that explains a miss. */
    method Retire(id: int, retiredBy: string, now: int) returns (r: Result<PublicSalt, SaltError>)
      modifies this`rows
      ensures rows == AfterRetire(old(rows), id, retiredBy, now)
      ensures var m := old(rows);
              if retiredBy == "" then rows == m && r == Err(NoActor)
              else if id !in m then rows == m && r == Err(NotFound)
              else if m[id].retiredAt.Some? then rows == m && r == Err(AlreadyRetired)
              else
                var s := m[id];
                && rows == m[id := Salt(s.id, s.secret, s.setAt, s.setBy, Some(now), retiredBy)]
                && r == Ok(PublicSalt(s.id, s.setAt, s.setBy, Some(now), retiredBy))
    {
      RetireLaw(rows, id, retiredBy, now);
      if retiredBy == "" {
        return Err(NoActor);
      }
      var affected := IsLive(rows, id);
      if affected {
        rows := rows[id := rows[id].(retiredAt := Some(now), retiredBy := retiredBy)];
      }
      if !affected {
        return Err(if id in rows then AlreadyRetired else NotFound);
      }
      return Ok(rows[id].Public());
    }

    /** Any one live row. */
    method LiveRecord() returns (rec: Option<Salt>)
      ensures rec.None? <==> forall id :: id in rows ==> rows[id].retiredAt.Some?
      ensures rec.Some? ==> rec.value.retiredAt.None? && exists id :: id in rows && rec.value == rows[id]
    {
      if id :| id in rows && IsLive(rows, id) {
        return Some(rows[id]);
      }
      return None;
    }

    /** The digest, the version it was made under, and (ghost) the buffer that held the key. */
    method Hash(phone: string) returns (r: Result<(seq<byte>, int), SaltError>, ghost key: array<byte>)
      requires Sound(rows)
      ensures r.Err? ==> r.error == NotFound
      ensures r.Err? <==> forall id :: id in rows ==> rows[id].retiredAt.Some?
      ensures r.Ok? ==>
                && r.value.1 in rows && rows[r.value.1].retiredAt.None?
                && r.value.0 == mac(rows[r.value.1].secret, phone)
                && forall id :: id in rows && rows[id].retiredAt.None? ==> id == r.value.1
      ensures fresh(key) && forall i :: 0 <= i < key.Length ==> key[i] == 0
    {
      var rec := LiveRecord();
      if rec.None? {
        key := new byte[0];
        return Err(NotFound), key;
      }
      forall id | id in rows && rows[id].retiredAt.None? ensures id == rec.value.id {
        assert IsLive(rows, id) && IsLive(rows, rec.value.id);
      }
      var secret := new byte[|rec.value.secret|](i requires 0 <= i < |rec.value.secret| => rec.value.secret[i]);
      assert secret[..] == rec.value.secret;
      var digest := mac(secret[..], phone);
      for i := 0 to secret.Length
        invariant forall j :: 0 <= j < i ==> secret[j] == 0
      {
        secret[i] := 0;
      }
      return Ok((digest, rec.value.id)), secret;
    }

    method Live() returns (r: Result<PublicSalt, SaltError>)
      requires Sound(rows)
      ensures r.Err? ==> r.error == NotFound
      ensures r.Err? <==> forall id :: id in rows ==> rows[id].retiredAt.Some?
      ensures r.Ok? ==>
                && r.value.id in rows
                && var s := rows[r.value.id];
                s.retiredAt.None? && r.value == PublicSalt(s.id, s.setAt, s.setBy, None, s.retiredBy)
    {
      var rec := LiveRecord();
      if rec.None? {
        return Err(NotFound);
      }
      return Ok(rec.value.Public());
    }

    /** ORDER BY id DESC */
    method RowsNewestFirst() returns (recs: seq<Salt>)
      requires Sound(rows)
      ensures Ordering.Ordered(NewestFirst, recs)
      ensures forall s :: s in recs <==> s.id in rows && rows[s.id] == s
    {
      recs := [];
      var todo := rows.Keys;
      while todo != {}
        invariant todo <= rows.Keys
        invariant Ordering.Ordered(NewestFirst, recs)
        invariant forall s :: s in recs <==> s.id in rows.Keys - todo && rows[s.id] == s
        decreases todo
      {
        assert (forall id :: id !in todo) ==> todo == {};
        var id :| id in todo;
        todo := todo - {id};
        Ordering.InsertKeepsOrder(NewestFirst, rows[id], recs);
        recs := Ordering.Insert(NewestFirst, rows[id], recs);
      }
    }

    method List() returns (out: seq<PublicSalt>)
      requires Sound(rows)
      ensures forall i, j :: 0 <= i < j < |out| ==> out[i].id > out[j].id
      ensures forall p :: p in out <==>
                            && p.id in rows
                            && var s := rows[p.id];
                            p == PublicSalt(s.id, s.setAt, s.setBy, s.retiredAt, s.retiredBy)
    {
      var recs := RowsNewestFirst();
      out := [];
      for i := 0 to |recs|
        invariant |out| == i && forall j :: 0 <= j < i ==> out[j] == recs[j].Public()
      {
        out := out + [recs[i].Public()];
      }
      forall p ensures p in out <==> p.id in rows && rows[p.id].Public() == p {
        if p.id in rows && rows[p.id].Public() == p {
          var i :| 0 <= i < |recs| && recs[i] == rows[p.id];
          assert out[i] == p;
        }
        if p in out {
          var i :| 0 <= i < |out| && out[i] == p;
          assert recs[i] in recs;
        }
      }
    }
  }
}
