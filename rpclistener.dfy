/**
 * The server side of the request protocol (`RPCListener`): the handlers for
 * each opcode, the dispatch, and the handling of one received datagram
 * (adding its sender to the view, unpacking it, framing the result).
 *
 * A result is `None` when Java throws out of the handler; the listener's
 * loop then ends.
 */
module RpcListener {
  import opened Wrappers
  import opened JavaInt
  import opened Text
  import opened Bytes
  import opened Seqs
  import opened Addresses
  import opened Cookies
  import opened Sessions
  import opened Membership
  import opened NetUtils

  /** The version a read request asks for: its second field parsed, or -1. */
  function RequestedVersion(f: seq<string>): Int32
    requires |f| >= 2
  {
    match ParseInt(f[1])
    case Some(v) => v
    case None => -1
  }

  /** The refusal of a read: NO_REPLY and `<id>_-1_NULL`. */
  function Miss(head: string): seq<byte>
  {
    PutShort(OpNoReply) + Encode(head + "_-1_NULL")
  }

  /**
   * What `sessionRead` answers for a table `m`: the record's byte form after
   * REPLY when the table holds the requested id at the requested version
   * (and that version is not -1), a refusal otherwise, and `None` when the
   * request splits into no fields at all (Java indexes an empty array).
   */
  function ReadReply(m: map<string, SessionState>, args: seq<byte>): (r: Option<seq<byte>>)
    reads m.Values
    ensures var t := Decode(args);
      var i := NextSep(t, '_', 0);
      && (r.None? ==> t != "" && t[0] == '_')
      && (r.Some? ==> ReplyOrRefusal(r.value))
      && (r.Some? && GetShort(r.value[..2]) == OpReply ==>
           && i < |t| && t[..i] in m && m[t[..i]].version != -1
           && ParseInt(t[i + 1..NextSep(t, '_', i + 1)]) == Some(m[t[..i]].version)
           && r.value == PutShort(OpReply) + m[t[..i]].ToBytes())
      && (r.Some? && GetShort(r.value[..2]) != OpReply ==> r.value == Miss(t[..i]))
  {
    SplitAt(Decode(args), '_');
    var f := Split(Decode(args), '_');
    if |f| == 0 then None
    else
      HeadOpcode(OpNoReply, Encode(f[0] + "_-1_NULL"));
      if |f| < 2 then Some(Miss(f[0]))
      else
        var v := RequestedVersion(f);
        if f[0] in m && m[f[0]].version == v && v != -1 then
          HeadOpcode(OpReply, m[f[0]].ToBytes());
          Some(PutShort(OpReply) + m[f[0]].ToBytes())
        else Some(Miss(f[0]))
  }

  /** How `sessionWrite` reads its arguments: too few fields, an unparsable version, or a record to store. */
  datatype WriteRequest = Malformed | BadVersion | Store(sessionid: string, version: Int32, message: string)

  /**
   * `sessionWrite`'s reading of its arguments by positions: malformed when
   * the text has fewer than two `_`; otherwise the id is the text before the
   * first, the version the text between the two, and the message all the
   * rest.
   */
  function ParseWrite(args: seq<byte>): (w: WriteRequest)
    ensures var t := Decode(args);
      var i := NextSep(t, '_', 0);
      var j := if i < |t| then NextSep(t, '_', i + 1) else |t|;
      && (w.Malformed? <==> j == |t|)
      && (w.BadVersion? <==> j < |t| && ParseInt(t[i + 1..j]).None?)
      && (w.Store? ==> w.sessionid == t[..i] && ParseInt(t[i + 1..j]) == Some(w.version) && w.message == t[j + 1..])
  {
    SplitLimitThreeAt(Decode(args), '_');
    var f := SplitLimit(Decode(args), '_', 3);
    if |f| < 3 then Malformed
    else
      match ParseInt(f[1])
      case None => BadVersion
      case Some(v) => Store(f[0], v, f[2])
  }

  /** What `sessionWrite` answers: its own address after NO_REPLY or REPLY; `None` where parsing throws. */
  function WriteReply(w: WriteRequest): (r: Option<seq<byte>>)
    ensures r.None? <==> w.BadVersion?
    ensures r.Some? ==> ReplyOrRefusal(r.value) && (GetShort(r.value[..2]) == OpReply <==> w.Store?)
    ensures r.Some? ==> Decode(r.value[2..]) == OwnIP
  {
    HeadOpcode(OpReply, Encode(OwnIP));
    HeadOpcode(OpNoReply, Encode(OwnIP));
    DecodeEncode(OwnIP);
    assert (PutShort(OpReply) + Encode(OwnIP))[2..] == Encode(OwnIP);
    assert (PutShort(OpNoReply) + Encode(OwnIP))[2..] == Encode(OwnIP);
    match w
    case Malformed => Some(PutShort(OpNoReply) + Encode(OwnIP))
    case BadVersion => None
    case Store(_, _, _) => Some(PutShort(OpReply) + Encode(OwnIP))
  }

  /** The reply datagram: the request's call id followed by the handler's result. */
  function ReplyFrame(callid: Int32, res: seq<byte>): seq<byte>
  {
    PutInt(callid) + res
  }

  /** The opcode at the head of a handler result is REPLY or NO_REPLY. */
  predicate ReplyOrRefusal(res: seq<byte>)
  {
    |res| >= 2 && (GetShort(res[..2]) == OpReply || GetShort(res[..2]) == OpNoReply)
  }

  /** `sessionRead`: look the requested record up without changing the table. */
  method SessionRead(table: SessionTable, args: seq<byte>) returns (res: Option<seq<byte>>)
    ensures res == ReadReply(table.statemap, args)
    ensures res.Some? ==> ReplyOrRefusal(res.value)
  {
    var sessionInfo := Split(Decode(args), '_');
    if |sessionInfo| < 2 {
      if |sessionInfo| == 0 {
        return None;
      }
      res := Some(PutShort(OpNoReply) + Encode(sessionInfo[0] + "_-1_NULL"));
    } else {
      var sessionid := sessionInfo[0];
      var version: Int32 := -1;
      var parsed := ParseInt(sessionInfo[1]);
      if parsed.Some? {
        version := parsed.value;
      }
      var ss := table.GetSessionVersion(sessionid, version);
      if ss == null || version == -1 {
        res := Some(PutShort(OpNoReply) + Encode(sessionInfo[0] + "_-1_NULL"));
      } else {
        res := Some(PutShort(OpReply) + ss.ToBytes());
      }
    }
    HeadOpcode(OpReply, if res.Some? then res.value[2..] else []);
    HeadOpcode(OpNoReply, if res.Some? then res.value[2..] else []);
  }

  /**
   * `sessionWrite`: store a new record built from the arguments with the
   * remote expiry, and answer this server's address.
   */
  method SessionWrite(table: SessionTable, args: seq<byte>, now: int) returns (res: Option<seq<byte>>)
    requires table.Valid()
    modifies table`statemap
    ensures table.Valid()
    ensures res == WriteReply(ParseWrite(args))
    ensures !ParseWrite(args).Store? ==> table.statemap == old(table.statemap)
    ensures ParseWrite(args).Store? ==> Stored(table, ParseWrite(args), now)
    ensures ParseWrite(args).Store? ==> var id := ParseWrite(args).sessionid;
      fresh(table.statemap[id]) && table.statemap == old(table.statemap)[id := table.statemap[id]]
  {
    var serverip := Encode(OwnIP);
    var sesInfo := SplitLimit(Decode(args), '_', 3);
    if |sesInfo| < 3 {
      return Some(PutShort(OpNoReply) + serverip);
    }
    var version := ParseInt(sesInfo[1]);
    if version.None? {
      return None;
    }
    var ss := new SessionState(sesInfo[0], version.value, sesInfo[2]);
    table.AddSession(ss, RemoteSessionExpTime, now);
    res := Some(PutShort(OpReply) + serverip);
  }

  /** The table holds the requested record, with the remote expiry. */
  predicate Stored(table: SessionTable, w: WriteRequest, now: int)
    requires w.Store?
    reads table, table.statemap.Values
  {
    && w.sessionid in table.statemap
    && table.statemap[w.sessionid].sessionid == w.sessionid
    && table.statemap[w.sessionid].version == w.version
    && table.statemap[w.sessionid].message == w.message
    && table.statemap[w.sessionid].expDate == Some(now + RemoteSessionExpTime)
  }

  /** `getView`: REPLY and the view's text form. */
  method GetViewReply(view: View) returns (res: seq<byte>, ghost order: seq<string>)
    ensures Enumerates(order, view.viewset)
    ensures res == PutShort(OpReply) + Encode(ViewString(order))
  {
    var s;
    s, order := view.GetString();
    res := PutShort(OpReply) + Encode(s);
  }

  /** `handleRequest`: dispatch on the opcode; an unknown one is refused with NO_REPLY alone. */
  method HandleRequest(op: Int16, args: seq<byte>, table: SessionTable, view: View, now: int)
    returns (res: Option<seq<byte>>, ghost order: seq<string>)
    requires table.Valid()
    modifies table`statemap
    ensures table.Valid()
    ensures res.Some? ==> ReplyOrRefusal(res.value)
    ensures op != OpSessionWrite ==> table.statemap == old(table.statemap)
    ensures op == OpSessionRead ==> res == ReadReply(table.statemap, args)
    ensures op == OpSessionWrite ==> res == WriteReply(ParseWrite(args))
    ensures op == OpSessionWrite && !ParseWrite(args).Store? ==> table.statemap == old(table.statemap)
    ensures op == OpSessionWrite && ParseWrite(args).Store? ==> Stored(table, ParseWrite(args), now)
    ensures op == OpSessionWrite && ParseWrite(args).Store? ==> var id := ParseWrite(args).sessionid;
      fresh(table.statemap[id]) && table.statemap == old(table.statemap)[id := table.statemap[id]]
    ensures op == OpGetView ==> Enumerates(order, view.viewset) && res == Some(PutShort(OpReply) + Encode(ViewString(order)))
    ensures op != OpSessionRead && op != OpSessionWrite && op != OpGetView ==> res == Some(PutShort(OpNoReply))
  {
    order := [];
    if op == OpSessionRead {
      res := SessionRead(table, args);
    } else if op == OpSessionWrite {
      res := SessionWrite(table, args, now);
      HeadOpcode(OpReply, Encode(OwnIP));
      HeadOpcode(OpNoReply, Encode(OwnIP));
    } else if op == OpGetView {
      var r;
      r, order := GetViewReply(view);
      HeadOpcode(OpReply, Encode(ViewString(order)));
      res := Some(r);
    } else {
      HeadOpcode(OpNoReply, []);
      assert PutShort(OpNoReply) + [] == PutShort(OpNoReply);
      res := Some(PutShort(OpNoReply));
    }
  }

  /**
   * The listener's handling of one datagram from `sender`: add the sender
   * to the view first; a datagram shorter than the header ends the
   * listener; otherwise dispatch its arguments and frame the result with
   * the request's call id.  Datagrams longer than the 512-byte receive
   * buffer are cut to it.
   */
  method Serve(packet: seq<byte>, sender: string, table: SessionTable, view: View, now: int)
    returns (out: Option<seq<byte>>, ghost res: Option<seq<byte>>, ghost order: seq<string>)
    requires table.Valid() && view.Valid()
    modifies table`statemap, view
    ensures table.Valid() && view.Valid()
    ensures view.viewset == Admit(old(view.viewset), sender)
    ensures |packet| < HeaderLen ==> out.None? && table.statemap == old(table.statemap)
    ensures |packet| >= HeaderLen ==> var p := packet[..Min(|packet|, MaxPacketLen)];
      && out == (if res.Some? then Some(ReplyFrame(CallIdOf(p), res.value)) else None)
      && (OpOf(p) != OpSessionWrite ==> table.statemap == old(table.statemap))
      && (OpOf(p) == OpSessionRead ==> res == ReadReply(table.statemap, p[HeaderLen..]))
      && (OpOf(p) == OpSessionWrite ==> res == WriteReply(ParseWrite(p[HeaderLen..])))
      && (OpOf(p) == OpSessionWrite && !ParseWrite(p[HeaderLen..]).Store? ==> table.statemap == old(table.statemap))
      && (OpOf(p) == OpSessionWrite && ParseWrite(p[HeaderLen..]).Store? ==>
           var id := ParseWrite(p[HeaderLen..]).sessionid;
           && Stored(table, ParseWrite(p[HeaderLen..]), now)
           && fresh(table.statemap[id]) && table.statemap == old(table.statemap)[id := table.statemap[id]])
      && (OpOf(p) == OpGetView ==> Enumerates(order, view.viewset) && res == Some(PutShort(OpReply) + Encode(ViewString(order))))
    ensures out.Some? ==> |out.value| >= HeaderLen && out.value[..4] == packet[..4] && ReplyOrRefusal(out.value[4..])
  {
    res := None;
    order := [];
    var added := view.AddAddr(sender);
    var lenRecv := Min(|packet|, MaxPacketLen);
    var recvBuffer := packet[..lenRecv];
    if lenRecv < HeaderLen {
      return None, res, order;
    }
    var callid := GetInt(recvBuffer[..4]);
    var opcode := GetShort(recvBuffer[4..6]);
    var args := recvBuffer[HeaderLen..];
    var r;
    r, order := HandleRequest(opcode, args, table, view, now);
    res := r;
    if r.None? {
      return None, res, order;
    }
    PutGetInt(recvBuffer[..4]);
    out := Some(ReplyFrame(callid, r.value));
    assert out.value[4..] == r.value;
  }

  // ---------------------------------------------------------------------
  // Lemmas
  // ---------------------------------------------------------------------

  /** A result built by `putShort(op)` starts with `op`. */
  lemma HeadOpcode(op: Int16, rest: seq<byte>)
    ensures |PutShort(op) + rest| >= 2 && GetShort((PutShort(op) + rest)[..2]) == op
  {
    GetPutShort(op);
    assert (PutShort(op) + rest)[..2] == PutShort(op);
  }

  /** The fields of a read request built by `sessionReadClient`, and the version the server reads from them. */
  lemma ReadArgsFields(sessionid: string, version: Int32)
    requires sessionid != "" && '_' !in sessionid && SingleByte(sessionid)
    ensures Split(Decode(ReadArgs(sessionid, version)), '_') == [sessionid, Decimal(version)]
    ensures RequestedVersion([sessionid, Decimal(version)]) == version
  {
    DecimalChars(version);
    var text := sessionid + "_" + Decimal(version);
    assert SingleByte(text);
    DecodeEncode(text);
    assert Join([sessionid, Decimal(version)], '_') == text;
    SplitOfJoin([sessionid, Decimal(version)], '_');
    ParseDecimal(version);
  }

  /**
   * A read request from `sessionReadClient` is answered with the record's
   * byte form exactly when the table holds that id at that version and the
   * version is not -1; otherwise it is refused.
   */
  lemma ReadRequestAnswer(m: map<string, SessionState>, sessionid: string, version: Int32)
    requires sessionid != "" && '_' !in sessionid && SingleByte(sessionid)
    ensures sessionid in m && m[sessionid].version == version && version != -1 ==>
      ReadReply(m, ReadArgs(sessionid, version)) == Some(PutShort(OpReply) + m[sessionid].ToBytes())
    ensures !(sessionid in m && m[sessionid].version == version && version != -1) ==>
      ReadReply(m, ReadArgs(sessionid, version)) == Some(Miss(sessionid))
  {
    ReadArgsFields(sessionid, version);
  }

  /** The request `_` splits into no fields: the server throws. */
  lemma LoneSeparatorThrows(m: map<string, SessionState>)
    ensures ReadReply(m, Encode("_")) == None
  {
    DecodeEncode("_");
    assert Fields("_", '_') == ["", ""] by {
      assert "_"[1..] == "";
    }
    assert DropTrailingEmpty(["", ""]) == [];
  }

  /**
   * A write request carrying a record's byte form stores that record: the
   * split limit of 3 keeps a message holding `_` (or an empty one) whole.
   */
  lemma WriteRequestRoundTrip(sessionid: string, version: Int32, message: string)
    requires '_' !in sessionid && SingleByte(sessionid) && SingleByte(message)
    ensures ParseWrite(Encode(Serialize(sessionid, version, message))) == Store(sessionid, version, message)
  {
    DecimalChars(version);
    var text := Serialize(sessionid, version, message);
    assert SingleByte(text);
    DecodeEncode(text);
    assert text == sessionid + ['_'] + Decimal(version) + ['_'] + message;
    SplitLimitThree(sessionid, Decimal(version), message, '_');
    ParseDecimal(version);
  }

  /**
   * A reply frame for a result `REPLY ++ payload` hands the waiting caller
   * exactly the payload, whatever its receive buffer held.
   */
  lemma ServedReplyReachesCaller(buf: seq<byte>, cid: Int32, payload: seq<byte>, later: seq<seq<byte>>)
    requires |buf| == MaxPacketLen
    requires 1 <= |payload| <= MaxPacketLen - HeaderLen
    ensures var o := Attempt(buf, cid, Arrivals([ReplyFrame(cid, PutShort(OpReply) + payload)] + later));
      o.Answered? && o.payload == payload
  {
    assert ReplyFrame(cid, PutShort(OpReply) + payload) == PutInt(cid) + PutShort(OpReply) + payload;
    ReplyDelivered(buf, cid, payload, later);
  }
}
