/**
 * The session store of `SessionState`: the record, its `_`-joined byte
 * form, and the process-wide table with its version-fenced accessors, the
 * session-number counter and the expiry sweep.
 */
module Sessions {
  import opened Wrappers
  import opened JavaInt
  import opened Text
  import opened Bytes
  import opened Seqs
  import opened Addresses

  /** The id of the `sessionNo`-th session created by server `serverId`: `<seq>/<serverId>`. */
  function MakeId(sessionNo: int, serverId: string): string
  {
    Decimal(sessionNo) + "/" + serverId
  }

  /** `getSessionNo`: the part of the id before the first `/`, parsed; `None` where Java throws. */
  function SessionNoOf(sessionid: string): (r: Option<Int32>)
    ensures r == ParseInt(sessionid[..NextSep(sessionid, '/', 0)])
  {
    SplitAt(sessionid, '/');
    var sid := Split(sessionid, '/');
    if |sid| == 0 then None else ParseInt(sid[0])
  }

  /**
   * `getServerID`: the part of the id between the first and second `/` (or
   * the end); `None` where Java throws, which is always the case for an id
   * without `/`.
   */
  function ServerIdOf(sessionid: string): (r: Option<string>)
    ensures var i := NextSep(sessionid, '/', 0);
      && (r.Some? ==> i < |sessionid| && r.value == sessionid[i + 1..NextSep(sessionid, '/', i + 1)])
      && (i == |sessionid| ==> r.None?)
  {
    SplitAt(sessionid, '/');
    var sid := Split(sessionid, '/');
    if |sid| < 2 then None else Some(sid[1])
  }

  /** The text `toBytes` encodes: `id_version_message`. */
  function Serialize(sessionid: string, version: Int32, message: string): string
  {
    sessionid + "_" + Decimal(version) + "_" + message
  }

  /** What `fromBytes` reads out of a byte form before it builds a record. */
  datatype Parsed = Parsed(sessionNo: Int32, serverId: string, version: Int32, message: string)

  /**
   * `fromBytes` without the allocation: split the text on the first two `_`,
   * split the id on `/`, parse the number and the version.  `None` is every
   * case in which Java throws (too few fields, a non-numeric part).  The
   * result is what `getSessionNo` and `getServerID` read from the text
   * before the first `_`, the version between the first and the second, and
   * everything after the second as the message.
   */
  function Parse(bytes: seq<byte>): (r: Option<Parsed>)
    ensures var t := Decode(bytes);
      var i := NextSep(t, '_', 0);
      var j := if i < |t| then NextSep(t, '_', i + 1) else |t|;
      && (r.Some? <==> j < |t| && SessionNoOf(t[..i]).Some? && ServerIdOf(t[..i]).Some? && ParseInt(t[i + 1..j]).Some?)
      && (r.Some? ==>
           && SessionNoOf(t[..i]) == Some(r.value.sessionNo)
           && ServerIdOf(t[..i]) == Some(r.value.serverId)
           && ParseInt(t[i + 1..j]) == Some(r.value.version)
           && r.value.message == t[j + 1..])
  {
    var t := Decode(bytes);
    SplitLimitThreeAt(t, '_');
    var sessionInfo := SplitLimit(t, '_', 3);
    if |sessionInfo| < 3 then None
    else
      var i := NextSep(t, '_', 0);
      var j := NextSep(t, '_', i + 1);
      assert sessionInfo[0] == t[..i] && sessionInfo[1] == t[i + 1..j] && sessionInfo[2] == t[j + 1..];
      var sesid := Split(sessionInfo[0], '/');
      if |sesid| < 2 then None
      else
        match (ParseInt(sesid[0]), ParseInt(sessionInfo[1]))
        case (Some(n), Some(v)) => Some(Parsed(n, sesid[1], v, sessionInfo[2]))
        case _ => None
  }

  /** One session: id, version, message and expiry time (milliseconds, `null` until stored). */
  class SessionState {
    const sessionid: string
    var version: Int32
    var message: string
    var expDate: Option<int>

    constructor (sessionid: string, version: Int32, msg: string)
      ensures this.sessionid == sessionid && this.version == version && message == msg
      ensures expDate == None
    {
      this.sessionid := sessionid;
      this.version := version;
      this.message := msg;
      this.expDate := None;
    }

    /** The constructor that builds the id from a session number and a server id. */
    constructor Numbered(sessionNo: Int32, serverid: string, version: Int32, msg: string)
      ensures sessionid == MakeId(sessionNo, serverid) && this.version == version && message == msg
      ensures expDate == None
    {
      this.sessionid := MakeId(sessionNo, serverid);
      this.version := version;
      this.message := msg;
      this.expDate := None;
    }

    /** `incrementVersion`: the version goes up by one, wrapping at 32 bits. */
    method IncrementVersion()
      modifies this
      ensures version == Inc(old(version))
      ensures message == old(message) && expDate == old(expDate)
    {
      version := Inc(version);
    }

    /** `setMessage`. */
    method SetMessage(newMsg: string)
      modifies this
      ensures message == newMsg
      ensures version == old(version) && expDate == old(expDate)
    {
      message := newMsg;
    }

    /**
     * `toBytes`: the `_`-joined id, version and message.  When the text is
     * one byte per character and the id holds no `_`, splitting the decoded
     * bytes on the first two `_` gives the three fields back.
     */
    function ToBytes(): (r: seq<byte>)
      reads this
      ensures '_' !in sessionid && SingleByte(sessionid) && SingleByte(message) ==>
        SplitLimit(Decode(r), '_', 3) == [sessionid, Decimal(version), message]
    {
      var text := Serialize(sessionid, version, message);
      DecimalChars(version);
      if '_' !in sessionid && SingleByte(sessionid) && SingleByte(message) then
        assert SingleByte(text);
        DecodeEncode(text);
        assert text == sessionid + ['_'] + Decimal(version) + ['_'] + message;
        SplitLimitThree(sessionid, Decimal(version), message, '_');
        Encode(text)
      else
        Encode(text)
    }
  }

  /** `fromBytes`: a new record from a byte form, or `None` where Java throws. */
  method FromBytes(bytes: seq<byte>) returns (r: Option<SessionState>)
    ensures r.None? <==> Parse(bytes).None?
    ensures r.Some? ==> fresh(r.value) && r.value.expDate == None
    ensures r.Some? ==> var p := Parse(bytes).value;
      && r.value.sessionid == MakeId(p.sessionNo, p.serverId)
      && r.value.version == p.version
      && r.value.message == p.message
  {
    var p := Parse(bytes);
    if p.None? {
      return None;
    }
    var s := new SessionState.Numbered(p.value.sessionNo, p.value.serverId, p.value.version, p.value.message);
    r := Some(s);
  }

  /** The record has expired at `curTime` (`curTime.after(expDate)`). */
  predicate Expired(s: SessionState, curTime: int)
    reads s
  {
    s.expDate.Some? && curTime > s.expDate.value
  }

  /** The entries of `m` that a sweep keeps after looking at the ids in `seen`, `dead` being the expired ids. */
  function Swept(m: map<string, SessionState>, seen: seq<string>, dead: set<string>): map<string, SessionState>
  {
    map id | id in m && !(id in seen && id in dead) :: m[id]
  }

  /** The entries of `m` that have not expired at `curTime`. */
  ghost function Live(m: map<string, SessionState>, curTime: int): map<string, SessionState>
    reads m.Values
  {
    map id | id in m && !Expired(m[id], curTime) :: m[id]
  }

  /** The static session table and session-number counter of `SessionState`. */
  class SessionTable {
    var statemap: map<string, SessionState>
    var globalSessionNo: Int32

    /** Each record is stored under its own id and has been given an expiry time. */
    ghost predicate Valid()
      reads this, statemap.Values
    {
      forall id :: id in statemap ==> statemap[id].sessionid == id && statemap[id].expDate.Some?
    }

    constructor ()
      ensures Valid() && statemap == map[] && globalSessionNo == 0
    {
      statemap := map[];
      globalSessionNo := 0;
    }

    /**
     * `addSession`: sets the expiry to `now + expLength` and stores the
     * record under its id, replacing whatever was stored there.
     */
    method AddSession(session: SessionState, expLength: int, now: int)
      requires Valid()
      modifies this`statemap, session`expDate
      ensures Valid()
      ensures session.expDate == Some(now + expLength)
      ensures statemap == old(statemap)[session.sessionid := session]
    {
      session.expDate := Some(now + expLength);
      statemap := statemap[session.sessionid := session];
    }

    /**
     * `newSession`: a record with the next session number and this server's
     * address, version 1, not stored in the table.
     */
    method NewSession(msg: string) returns (s: SessionState)
      modifies this`globalSessionNo
      ensures fresh(s)
      ensures s.sessionid == MakeId(old(globalSessionNo), OwnIP)
      ensures s.version == 1 && s.message == msg && s.expDate == None
      ensures globalSessionNo == Inc(old(globalSessionNo))
      ensures statemap == old(statemap)
    {
      var newSessionNo := globalSessionNo;
      globalSessionNo := Inc(globalSessionNo);
      s := new SessionState.Numbered(newSessionNo, OwnIP, 1, msg);
    }

    /** `removeSession(id)`: takes the record out, whatever its version. */
    method RemoveSession(sessionid: string) returns (r: SessionState?)
      requires Valid()
      modifies this`statemap
      ensures Valid()
      ensures r == (if sessionid in old(statemap) then old(statemap)[sessionid] else null)
      ensures statemap == old(statemap) - {sessionid}
    {
      r := if sessionid in statemap then statemap[sessionid] else null;
      statemap := statemap - {sessionid};
    }

    /**
     * `removeSession(id, version)`: takes the record out, and puts it back
     * and answers null when its version is not `version`.
     */
    method RemoveSessionVersion(sessionid: string, version: Int32) returns (r: SessionState?)
      requires Valid()
      modifies this`statemap
      ensures Valid()
      ensures sessionid in old(statemap) && old(statemap)[sessionid].version == version ==>
        r == old(statemap)[sessionid] && statemap == old(statemap) - {sessionid}
      ensures !(sessionid in old(statemap) && old(statemap)[sessionid].version == version) ==>
        r == null && statemap == old(statemap)
    {
      var session := RemoveSession(sessionid);
      if session != null {
        if session.version != version {
          var back: SessionState := session;
          statemap := statemap[back.sessionid := back];
          session := null;
        }
      }
      r := session;
    }

    /** `getSession(id)`: the stored record, or null. */
    method GetSession(sessionid: string) returns (r: SessionState?)
      ensures sessionid in statemap ==> r == statemap[sessionid]
      ensures sessionid !in statemap ==> r == null
    {
      r := if sessionid in statemap then statemap[sessionid] else null;
    }

    /** `getSession(id, version)`: the stored record only when its version is `version`. */
    method GetSessionVersion(sessionid: string, version: Int32) returns (r: SessionState?)
      ensures r != null <==> sessionid in statemap && statemap[sessionid].version == version
      ensures r != null ==> r == statemap[sessionid]
    {
      var session := GetSession(sessionid);
      if session != null {
        if session.version != version {
          session := null;
        }
      }
      r := session;
    }

    /** `getSessionIds`: every stored id once. */
    method GetSessionIds() returns (ids: seq<string>)
      ensures Enumerates(ids, statemap.Keys)
    {
      ids := ToSeq(statemap.Keys);
    }

    /**
     * One pass of the garbage-collection thread at time `curTime`: snapshot
     * the ids, and remove each record that has expired.
     */
    method Sweep(curTime: int)
      requires Valid()
      modifies this`statemap
      ensures Valid()
      ensures statemap == Live(old(statemap), curTime)
      ensures forall id :: id in statemap ==> !Expired(statemap[id], curTime)
      ensures forall id :: id in old(statemap) && !Expired(old(statemap)[id], curTime) ==>
        id in statemap && statemap[id] == old(statemap)[id]
    {
      var sessionids := GetSessionIds();
      ghost var m := statemap;
      ghost var dead := set id | id in m && Expired(m[id], curTime);
      for i := 0 to |sessionids|
        invariant Valid()
        invariant statemap == Swept(m, sessionids[..i], dead)
      {
        assert sessionids[..i + 1] == sessionids[..i] + [sessionids[i]];
        SweepOne(sessionids[i], curTime, m, sessionids[..i], dead);
      }
      assert sessionids[..|sessionids|] == sessionids;
      SweptAll(m, sessionids, curTime);
    }

    /** The body of the sweep for one id: remove its record when it is stored and has expired. */
    method SweepOne(id: string, curTime: int, ghost m: map<string, SessionState>, ghost seen: seq<string>, ghost dead: set<string>)
      requires Valid() && id !in seen
      requires statemap == Swept(m, seen, dead)
      requires forall k :: k in m ==> (k in dead <==> Expired(m[k], curTime))
      modifies this`statemap
      ensures Valid()
      ensures statemap == Swept(m, seen + [id], dead)
    {
      SweptStep(m, seen, dead, id);
      var state := GetSession(id);
      if state != null && curTime > state.expDate.value {
        state := RemoveSession(id);
      }
    }
  }

  // ---------------------------------------------------------------------
  // Lemmas
  // ---------------------------------------------------------------------

  /** Looking at one more id removes it exactly when it is stored and expired. */
  lemma SweptStep(m: map<string, SessionState>, seen: seq<string>, dead: set<string>, id: string)
    requires id !in seen
    ensures Swept(m, seen + [id], dead)
         == if id in m && id in dead then Swept(m, seen, dead) - {id} else Swept(m, seen, dead)
  {
  }

  /** Once every stored id has been looked at, the sweep has kept exactly the live entries. */
  lemma SweptAll(m: map<string, SessionState>, seen: seq<string>, curTime: int)
    requires forall id :: id in m ==> id in seen
    ensures Swept(m, seen, set id | id in m && Expired(m[id], curTime)) == Live(m, curTime)
  {
  }

  /** The id text of a numbered session splits on `/` into the number and the server id. */
  lemma IdFields(sessionNo: int, serverId: string)
    requires '/' !in serverId
    ensures Fields(MakeId(sessionNo, serverId), '/') == [Decimal(sessionNo), serverId]
  {
    DecimalChars(sessionNo);
    FieldsOfPlain(serverId, '/');
    FieldsOfLeading(Decimal(sessionNo), '/', serverId);
  }

  /** `getSessionNo` and `getServerID` give back the parts of an id built by `MakeId`. */
  lemma IdParts(sessionNo: Int32, serverId: string)
    requires serverId != "" && '/' !in serverId
    ensures SessionNoOf(MakeId(sessionNo, serverId)) == Some(sessionNo)
    ensures ServerIdOf(MakeId(sessionNo, serverId)) == Some(serverId)
  {
    IdFields(sessionNo, serverId);
    ParseDecimal(sessionNo);
  }

  /** Different session numbers or servers give different ids. */
  lemma MakeIdInjective(n1: int, s1: string, n2: int, s2: string)
    requires '/' !in s1 && '/' !in s2
    requires MakeId(n1, s1) == MakeId(n2, s2)
    ensures n1 == n2 && s1 == s2
  {
    IdFields(n1, s1);
    IdFields(n2, s2);
    DecimalInjective(n1, n2);
  }

  /**
   * `fromBytes(toBytes(s))` gives back the number, server, version and
   * message, even when the message is empty or holds `_`, provided the
   * server id is not empty and holds neither `/` nor `_`, and the text is
   * one byte per character.
   */
  lemma ParseSerialized(sessionNo: Int32, serverId: string, version: Int32, message: string)
    requires serverId != "" && '/' !in serverId && '_' !in serverId
    requires SingleByte(serverId) && SingleByte(message)
    ensures Parse(Encode(Serialize(MakeId(sessionNo, serverId), version, message)))
         == Some(Parsed(sessionNo, serverId, version, message))
  {
    var id := MakeId(sessionNo, serverId);
    DecimalChars(sessionNo);
    DecimalChars(version);
    assert '_' !in id;
    var text := Serialize(id, version, message);
    assert SingleByte(text);
    DecodeEncode(text);
    assert text == id + ['_'] + Decimal(version) + ['_'] + message;
    SplitLimitThree(id, Decimal(version), message, '_');
    IdFields(sessionNo, serverId);
    ParseDecimal(sessionNo);
    ParseDecimal(version);
  }

  /** The same round trip stated on a record whose id was built from a number and a server id. */
  lemma ToBytesRoundTrip(s: SessionState, sessionNo: Int32, serverId: string)
    requires s.sessionid == MakeId(sessionNo, serverId)
    requires serverId != "" && '/' !in serverId && '_' !in serverId
    requires SingleByte(serverId) && SingleByte(s.message)
    ensures Parse(s.ToBytes()) == Some(Parsed(sessionNo, serverId, s.version, s.message))
    ensures MakeId(Parse(s.ToBytes()).value.sessionNo, Parse(s.ToBytes()).value.serverId) == s.sessionid
  {
    ParseSerialized(sessionNo, serverId, s.version, s.message);
  }
}
