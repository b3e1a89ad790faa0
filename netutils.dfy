/**
 * The client side of the UDP request protocol of `NetUtils`: opcodes, the
 * request frame, call-id allocation, and `sendRequest`'s walk over the
 * candidate servers, with the session read and write clients built on it.
 *
 * The network is a parameter.  For the `i`-th candidate, `env(i)` says what
 * the socket does after the frame is sent: an I/O error, or the datagrams
 * that arrive before the two-second receive timeout (when none of them is
 * accepted, the receive times out).  Whether the socket can be opened at
 * all is `socketOk`.
 */
module NetUtils {
  import opened Wrappers
  import opened JavaInt
  import opened Bytes
  import opened Seqs
  import opened Addresses
  import opened Sessions
  import opened Membership

  const OpSessionRead: Int16 := 0
  const OpSessionWrite: Int16 := 1
  const OpGetView: Int16 := 2
  const OpReply: Int16 := 3
  const OpNoReply: Int16 := 4

  /** Size of the receive buffer, and the intended bound on a frame. */
  const MaxPacketLen: nat := 512
  /** A call id (4 bytes) followed by an opcode (2 bytes). */
  const HeaderLen: nat := 6

  function Zeros(n: nat): (r: seq<byte>)
    ensures |r| == n && forall i :: 0 <= i < n ==> r[i] == 0
  {
    seq(n, _ => 0)
  }

  function Elems(s: seq<string>): set<string>
  {
    set x | x in s
  }

  /**
   * The request frame: call id, opcode, then the first `MaxPacketLen - 6`
   * bytes of the arguments.  The buffer is allocated for all of the
   * arguments, so bytes beyond that bound stay zero rather than shrinking
   * the frame.
   */
  function RequestFrame(cid: Int32, op: Int16, args: seq<byte>): (r: seq<byte>)
    ensures |r| == HeaderLen + |args| && CallIdOf(r) == cid && OpOf(r) == op
  {
    var n := Min(|args|, MaxPacketLen - HeaderLen);
    var f := PutInt(cid) + PutShort(op) + args[..n] + Zeros(|args| - n);
    GetPutInt(cid);
    GetPutShort(op);
    assert f[..4] == PutInt(cid);
    assert f[4..6] == PutShort(op);
    f
  }

  /** Writes the request frame into a fresh buffer, as `sendRequest` fills its `ByteBuffer`. */
  method PackRequest(cid: Int32, op: Int16, args: seq<byte>) returns (buff: array<byte>)
    ensures fresh(buff)
    ensures buff[..] == RequestFrame(cid, op, args)
  {
    var lenArgsSent := Min(|args|, MaxPacketLen - HeaderLen);
    buff := new byte[HeaderLen + |args|](_ => 0);
    var head := PutInt(cid) + PutShort(op);
    for i := 0 to HeaderLen
      invariant forall k :: 0 <= k < buff.Length ==> buff[k] == if k < i then head[k] else 0
    {
      buff[i] := head[i];
    }
    for i := 0 to lenArgsSent
      invariant forall k :: 0 <= k < buff.Length ==>
        buff[k] == if k < HeaderLen then head[k] else if k < HeaderLen + i then args[k - HeaderLen] else 0
    {
      buff[HeaderLen + i] := args[i];
    }
    assert buff[..] == RequestFrame(cid, op, args);
  }

  /** What the socket does for one candidate after the frame has been sent to it. */
  datatype Delivery = IoFailure | Arrivals(packets: seq<seq<byte>>)

  /**
   * The receive buffer after a datagram lands in it: the datagram's bytes
   * (at most `MaxPacketLen` of them) over whatever the buffer held before.
   */
  function Land(buf: seq<byte>, p: seq<byte>): (r: seq<byte>)
    requires |buf| == MaxPacketLen
    ensures |r| == MaxPacketLen
  {
    var n := Min(|p|, MaxPacketLen);
    p[..n] + buf[n..]
  }

  /** Byte by byte: the datagram's bytes where it reaches, the old contents beyond. */
  lemma LandBytes(buf: seq<byte>, p: seq<byte>)
    requires |buf| == MaxPacketLen
    ensures forall i :: 0 <= i < MaxPacketLen ==> Land(buf, p)[i] == if i < |p| then p[i] else buf[i]
  {
  }

  /** The call id at the head of a buffer. */
  function CallIdOf(buf: seq<byte>): Int32
    requires |buf| >= HeaderLen
  {
    GetInt(buf[..4])
  }

  /** The opcode after the call id. */
  function OpOf(buf: seq<byte>): Int16
    requires |buf| >= HeaderLen
  {
    GetShort(buf[4..6])
  }

  /** The wait loop stops at a datagram whose call id matches, or whose opcode is REPLY. */
  predicate Accepts(buf: seq<byte>, cid: Int32)
    requires |buf| >= HeaderLen
  {
    CallIdOf(buf) == cid || OpOf(buf) == OpReply
  }

  /** How the wait for one candidate ends: the receive timed out, or a datagram of `len` bytes was accepted. */
  datatype Wait = Silence(buf: seq<byte>) | Heard(buf: seq<byte>, len: nat)

  /** The wait loop over the datagrams that arrive, starting from the buffer `buf`. */
  function Await(buf: seq<byte>, ps: seq<seq<byte>>, cid: Int32): (w: Wait)
    requires |buf| == MaxPacketLen
    ensures |w.buf| == MaxPacketLen
    ensures w.Heard? ==> Accepts(w.buf, cid) && w.len <= MaxPacketLen
    decreases |ps|
  {
    if |ps| == 0 then Silence(buf)
    else
      var b := Land(buf, ps[0]);
      if Accepts(b, cid) then Heard(b, Min(|ps[0]|, MaxPacketLen))
      else Await(b, ps[1..], cid)
  }

  /** The outcome of one candidate. */
  datatype Outcome =
    | Failed
    | TimedOut(buf: seq<byte>)
    | Refused(buf: seq<byte>)
    | Answered(buf: seq<byte>, payload: seq<byte>)

  /**
   * One candidate: an I/O error ends the whole request; a timeout; an
   * accepted NO_REPLY; or any other accepted datagram, whose bytes after
   * the header are the answer (a single zero byte when there are none).
   */
  function Attempt(buf: seq<byte>, cid: Int32, d: Delivery): (o: Outcome)
    requires |buf| == MaxPacketLen
    ensures !o.Failed? ==> |o.buf| == MaxPacketLen
    ensures o.Answered? ==> 1 <= |o.payload| <= MaxPacketLen - HeaderLen
  {
    match d
    case IoFailure => Failed
    case Arrivals(ps) =>
      match Await(buf, ps, cid)
      case Silence(b) => TimedOut(b)
      case Heard(b, len) =>
        if OpOf(b) == OpNoReply then Refused(b)
        else Answered(b, if len > HeaderLen then b[HeaderLen..len] else [0])
  }

  /** The state of `sendRequest` between candidates. */
  datatype Fan = Fan(buf: seq<byte>, reply: Option<seq<byte>>, dropped: seq<string>, halted: bool)

  /** A zeroed receive buffer, no answer yet, nothing dropped from the view. */
  function Start(): Fan
  {
    Fan(Zeros(MaxPacketLen), None, [], false)
  }

  /** The state after a reached candidate with outcome `o`. */
  function Advance(f: Fan, addr: string, o: Outcome): Fan
  {
    match o
    case Failed => f.(halted := true)
    case TimedOut(b) => f.(buf := b, dropped := f.dropped + [addr])
    case Refused(b) => f.(buf := b)
    case Answered(b, p) => f.(buf := b, reply := Some(p))
  }

  /**
   * The state after the first `n` candidates, whatever each does:
   * `attempt(buf, i)` is the outcome of the `i`-th candidate when the
   * receive buffer holds `buf`.  Once halted, nothing changes.
   */
  function Run(attempt: (seq<byte>, nat) -> Outcome, addrs: seq<string>, n: nat): Fan
    requires n <= |addrs|
  {
    if n == 0 then Start()
    else
      var f := Run(attempt, addrs, n - 1);
      if f.halted then f else Advance(f, addrs[n - 1], attempt(f.buf, n - 1))
  }

  /** What the candidates of a request with call id `cid` do on the network `env`. */
  function Outcomes(cid: Int32, env: nat -> Delivery): (seq<byte>, nat) -> Outcome
  {
    (b: seq<byte>, i: nat) => if |b| == MaxPacketLen then Attempt(b, cid, env(i)) else Failed
  }

  /** An outcome that keeps a full buffer and, when it answers, answers 1 to 506 bytes. */
  predicate Sound(o: Outcome)
  {
    && (!o.Failed? ==> |o.buf| == MaxPacketLen)
    && (o.Answered? ==> 1 <= |o.payload| <= MaxPacketLen - HeaderLen)
  }

  /**
   * The state of `sendRequest` after its first `n` candidates: the receive
   * buffer stays 512 bytes, and an answer is 1 to 506 bytes.
   */
  function Steps(cid: Int32, addrs: seq<string>, env: nat -> Delivery, n: nat): (f: Fan)
    requires n <= |addrs|
    ensures |f.buf| == MaxPacketLen
    ensures f.reply.Some? ==> 1 <= |f.reply.value| <= MaxPacketLen - HeaderLen
  {
    OutcomesSound(cid, env);
    RunSound(Outcomes(cid, env), addrs, n);
    Run(Outcomes(cid, env), addrs, n)
  }

  /** The `i`-th candidate is reached and answers. */
  predicate AnsweredAt(attempt: (seq<byte>, nat) -> Outcome, addrs: seq<string>, i: nat)
    requires i < |addrs|
  {
    var f := Run(attempt, addrs, i);
    !f.halted && attempt(f.buf, i).Answered?
  }

  /** The `i`-th candidate is reached and its receive times out. */
  predicate TimedOutAt(attempt: (seq<byte>, nat) -> Outcome, addrs: seq<string>, i: nat)
    requires i < |addrs|
  {
    var f := Run(attempt, addrs, i);
    !f.halted && attempt(f.buf, i).TimedOut?
  }

  /** `DatagramSocket.receive` into the reused buffer; answers the datagram's length. */
  method Receive(inbuff: array<byte>, p: seq<byte>) returns (len: nat)
    requires inbuff.Length == MaxPacketLen
    modifies inbuff
    ensures inbuff[..] == Land(old(inbuff[..]), p)
    ensures len == Min(|p|, MaxPacketLen)
  {
    len := Min(|p|, MaxPacketLen);
    for k := 0 to len
      invariant forall m :: 0 <= m < inbuff.Length ==> inbuff[m] == if m < k then p[m] else old(inbuff[m])
    {
      inbuff[k] := p[k];
    }
    LandBytes(old(inbuff[..]), p);
    assert inbuff[..] == Land(old(inbuff[..]), p);
  }

  /**
   * The wait loop of `sendRequest`: receive datagrams into the reused buffer
   * until one is accepted; `heard` is false when the receive times out.
   */
  method AwaitAccepted(inbuff: array<byte>, ps: seq<seq<byte>>, cid: Int32) returns (heard: bool, len: nat)
    requires inbuff.Length == MaxPacketLen
    modifies inbuff
    ensures Await(old(inbuff[..]), ps, cid) == if heard then Heard(inbuff[..], len) else Silence(inbuff[..])
  {
    ghost var w := Await(inbuff[..], ps, cid);
    var j := 0;
    heard := false;
    len := 0;
    while !heard && j < |ps|
      invariant 0 <= j <= |ps|
      invariant !heard ==> Await(inbuff[..], ps[j..], cid) == w
      invariant heard ==> w == Heard(inbuff[..], len)
      decreases |ps| - j, if heard then 0 else 1
    {
      assert ps[j..][1..] == ps[j + 1..];
      len := Receive(inbuff, ps[j]);
      j := j + 1;
      var recvCID := GetInt(inbuff[..4]);
      var recvCode := GetShort(inbuff[4..6]);
      heard := recvCID == cid || recvCode == OpReply;
    }
  }

  /**
   * One candidate after the frame has been sent to it: wait, then tell a
   * timeout, a NO_REPLY and an answer apart; the answer is the accepted
   * datagram's bytes after the header, or a single zero byte.
   */
  method Contact(inbuff: array<byte>, cid: Int32, ps: seq<seq<byte>>) returns (timedOut: bool, answer: Option<seq<byte>>)
    requires inbuff.Length == MaxPacketLen
    modifies inbuff
    ensures var o := Attempt(old(inbuff[..]), cid, Arrivals(ps));
      && inbuff[..] == o.buf
      && (timedOut <==> o.TimedOut?)
      && answer == if o.Answered? then Some(o.payload) else None
  {
    var heard, len := AwaitAccepted(inbuff, ps, cid);
    timedOut := !heard;
    answer := None;
    if heard && GetShort(inbuff[4..6]) != OpNoReply {
      if len - HeaderLen > 0 {
        answer := Some(inbuff[HeaderLen..len]);
      } else {
        answer := Some([0]);
      }
    }
  }

  /**
   * The loop of `sendRequest` over the candidates, from a zeroed receive
   * buffer: the answer and the view afterwards are those of `Steps`.
   */
  method Walk(inbuff: array<byte>, cid: Int32, addrs: seq<string>, view: View, env: nat -> Delivery) returns (reply: Option<seq<byte>>)
    requires inbuff.Length == MaxPacketLen && inbuff[..] == Zeros(MaxPacketLen)
    requires view.Valid()
    modifies inbuff, view
    ensures view.Valid()
    ensures reply == Steps(cid, addrs, env, |addrs|).reply
    ensures view.viewset == old(view.viewset) - Elems(Steps(cid, addrs, env, |addrs|).dropped)
  {
    reply := None;
    ghost var dropped: seq<string> := [];
    var i := 0;
    while i < |addrs|
      invariant 0 <= i <= |addrs|
      invariant view.Valid()
      invariant Steps(cid, addrs, env, i) == Fan(inbuff[..], reply, dropped, false)
      invariant view.viewset == old(view.viewset) - Elems(dropped)
    {
      var d := env(i);
      if d.IoFailure? {
        FailureEnds(cid, addrs, env, i);
        return;
      }
      ghost var before := dropped;
      reply, dropped := Visit(inbuff, cid, addrs[i], d.packets, view, reply, dropped, addrs, env, i);
      if dropped != before {
        ElemsSnoc(before, addrs[i]);
      }
      i := i + 1;
    }
  }

  /**
   * The body of the loop of `sendRequest` for the `i`-th candidate, once the
   * frame has been sent to it: a timeout drops it from the view, an answer
   * replaces the one so far.
   */
  method Visit(inbuff: array<byte>, cid: Int32, addr: string, ps: seq<seq<byte>>, view: View,
               reply: Option<seq<byte>>, ghost dropped: seq<string>,
               ghost addrs: seq<string>, ghost env: nat -> Delivery, ghost i: nat)
    returns (reply': Option<seq<byte>>, ghost dropped': seq<string>)
    requires inbuff.Length == MaxPacketLen && view.Valid()
    requires i < |addrs| && addrs[i] == addr && env(i) == Arrivals(ps)
    requires Steps(cid, addrs, env, i) == Fan(inbuff[..], reply, dropped, false)
    modifies inbuff, view
    ensures view.Valid()
    ensures Steps(cid, addrs, env, i + 1) == Fan(inbuff[..], reply', dropped', false)
    ensures dropped' == dropped || dropped' == dropped + [addr]
    ensures view.viewset == old(view.viewset) - (if dropped' == dropped then {} else {addr})
  {
    StepsNext(cid, addrs, env, i);
    reply' := reply;
    dropped' := dropped;
    var timedOut, answer := Contact(inbuff, cid, ps);
    if timedOut {
      var removed := view.RemoveAddr(addr);
      dropped' := dropped + [addr];
    } else if answer.Some? {
      reply' := answer;
    }
  }

  /** The request arguments `sessionReadClient` sends: `sessionid_version`. */
  function ReadArgs(sessionid: string, version: Int32): seq<byte>
  {
    Encode(sessionid + "_" + Decimal(version))
  }

  /** `sessionWriteClient`'s reading of the answer: the text of the reply, or the null address. */
  function WrittenTo(reply: Option<seq<byte>>): (ip: string)
    ensures reply.None? ==> ip == NullIP
    ensures reply.Some? ==> Encode(ip) == reply.value
  {
    EncodeDecode(if reply.Some? then reply.value else []);
    if reply.Some? then Decode(reply.value) else NullIP
  }

  /** The static call-id counter of `NetUtils`, and the requests that draw from it. */
  class Caller {
    var callID: Int32

    constructor ()
      ensures callID == 0
    {
      callID := 0;
    }

    /**
     * `sendRequest`: open a socket (failing that, answer `None` without
     * using a call id), take the next call id, send the frame to each
     * candidate in turn and wait for an accepted datagram; a timeout drops
     * the candidate from the view; the answer is that of the last candidate
     * that answered, or `None`; an I/O error ends the walk with the answer
     * so far.
     */
    method SendRequest(opCode: Int16, args: seq<byte>, addrs: seq<string>, view: View, socketOk: bool, env: nat -> Delivery)
      returns (reply: Option<seq<byte>>, ghost frame: seq<byte>)
      requires view.Valid()
      modifies this, view
      ensures view.Valid()
      ensures !socketOk ==> reply == None && callID == old(callID) && view.viewset == old(view.viewset)
      ensures socketOk ==> callID == Inc(old(callID)) && frame == RequestFrame(old(callID), opCode, args)
      ensures socketOk ==> reply == Steps(old(callID), addrs, env, |addrs|).reply
      ensures socketOk ==> view.viewset == old(view.viewset) - Elems(Steps(old(callID), addrs, env, |addrs|).dropped)
    {
      var inbuff := new byte[MaxPacketLen](_ => 0);
      assert inbuff[..] == Zeros(MaxPacketLen);
      reply := None;
      frame := [];
      if !socketOk {
        return;
      }
      var cid := callID;
      callID := Inc(callID);
      var sendPacket := PackRequest(cid, opCode, args);
      frame := sendPacket[..];
      reply := Walk(inbuff, cid, addrs, view, env);
    }

    /**
     * `sessionReadClient`: ask the candidates for `sessionid_version` and
     * rebuild a record from the answer.  `None` is the exception Java throws
     * when there is no answer (`fromBytes(null)`) or the answer does not parse.
     */
    method SessionReadClient(sessionid: string, version: Int32, addrs: seq<string>, view: View, socketOk: bool, env: nat -> Delivery)
      returns (r: Option<SessionState>, ghost frame: seq<byte>)
      requires view.Valid()
      modifies this, view
      ensures view.Valid()
      ensures socketOk ==> frame == RequestFrame(old(callID), OpSessionRead, ReadArgs(sessionid, version))
      ensures !socketOk ==> callID == old(callID) && view.viewset == old(view.viewset)
      ensures socketOk ==> callID == Inc(old(callID))
      ensures socketOk ==> view.viewset == old(view.viewset) - Elems(Steps(old(callID), addrs, env, |addrs|).dropped)
      ensures var reply := if socketOk then Steps(old(callID), addrs, env, |addrs|).reply else None;
        && (r.Some? <==> reply.Some? && Parse(reply.value).Some?)
        && (r.Some? ==> var p := Parse(reply.value).value;
             && fresh(r.value) && r.value.expDate == None
             && r.value.sessionid == MakeId(p.sessionNo, p.serverId)
             && r.value.version == p.version && r.value.message == p.message)
    {
      var reply;
      reply, frame := SendRequest(OpSessionRead, ReadArgs(sessionid, version), addrs, view, socketOk, env);
      if reply.None? {
        return None, frame;
      }
      r := FromBytes(reply.value);
    }

    /**
     * `sessionWriteClient`: send the record's byte form to the candidates;
     * the answer's text is the address of the server that stored it, or the
     * null address when nobody answered.
     */
    method SessionWriteClient(session: SessionState, addrs: seq<string>, view: View, socketOk: bool, env: nat -> Delivery)
      returns (ip: string, ghost frame: seq<byte>)
      requires view.Valid()
      modifies this, view
      ensures view.Valid()
      ensures socketOk ==> frame == RequestFrame(old(callID), OpSessionWrite, old(session.ToBytes()))
      ensures !socketOk ==> callID == old(callID) && view.viewset == old(view.viewset)
      ensures socketOk ==> callID == Inc(old(callID))
      ensures socketOk ==> view.viewset == old(view.viewset) - Elems(Steps(old(callID), addrs, env, |addrs|).dropped)
      ensures ip == WrittenTo(if socketOk then Steps(old(callID), addrs, env, |addrs|).reply else None)
    {
      var reply;
      reply, frame := SendRequest(OpSessionWrite, session.ToBytes(), addrs, view, socketOk, env);
      if reply.Some? {
        ip := Decode(reply.value);
      } else {
        ip := NullIP;
      }
    }
  }

  // ---------------------------------------------------------------------
  // Lemmas
  // ---------------------------------------------------------------------

  /**
   * The frame is `6 + |args|` bytes: the call id, the opcode, the first
   * `min(|args|, 506)` argument bytes, then zeros.
   */
  lemma FrameLayout(cid: Int32, op: Int16, args: seq<byte>)
    ensures var f := RequestFrame(cid, op, args);
      && |f| == HeaderLen + |args|
      && CallIdOf(f) == cid && OpOf(f) == op
      && f[HeaderLen..HeaderLen + Min(|args|, MaxPacketLen - HeaderLen)] == args[..Min(|args|, MaxPacketLen - HeaderLen)]
      && (forall i :: HeaderLen + Min(|args|, MaxPacketLen - HeaderLen) <= i < |f| ==> f[i] == 0)
      && (|args| <= MaxPacketLen - HeaderLen ==> f == PutInt(cid) + PutShort(op) + args)
  {
    GetPutInt(cid);
    GetPutShort(op);
    var f := RequestFrame(cid, op, args);
    assert f[..4] == PutInt(cid);
    assert f[4..6] == PutShort(op);
  }

  lemma ElemsSnoc(s: seq<string>, x: string)
    ensures Elems(s + [x]) == Elems(s) + {x}
  {
  }

  /** Candidates whose outcomes are sound keep the buffer full and answers within one datagram. */
  lemma {:induction false} RunSound(attempt: (seq<byte>, nat) -> Outcome, addrs: seq<string>, n: nat)
    requires n <= |addrs|
    requires forall b, i :: Sound(attempt(b, i))
    ensures |Run(attempt, addrs, n).buf| == MaxPacketLen
    ensures Run(attempt, addrs, n).reply.Some? ==> 1 <= |Run(attempt, addrs, n).reply.value| <= MaxPacketLen - HeaderLen
  {
    if n > 0 {
      RunSound(attempt, addrs, n - 1);
      var f := Run(attempt, addrs, n - 1);
      assert Sound(attempt(f.buf, n - 1));
    }
  }

  /** One more candidate of a request that has not halted advances by its outcome. */
  lemma StepsNext(cid: Int32, addrs: seq<string>, env: nat -> Delivery, i: nat)
    requires i < |addrs| && !Steps(cid, addrs, env, i).halted
    ensures Steps(cid, addrs, env, i + 1)
         == Advance(Steps(cid, addrs, env, i), addrs[i], Attempt(Steps(cid, addrs, env, i).buf, cid, env(i)))
  {
  }

  /** An I/O error at the `i`-th candidate ends the request with the answer and the dropped list so far. */
  lemma FailureEnds(cid: Int32, addrs: seq<string>, env: nat -> Delivery, i: nat)
    requires i < |addrs| && !Steps(cid, addrs, env, i).halted && env(i).IoFailure?
    ensures Steps(cid, addrs, env, |addrs|).reply == Steps(cid, addrs, env, i).reply
    ensures Steps(cid, addrs, env, |addrs|).dropped == Steps(cid, addrs, env, i).dropped
  {
    StepsNext(cid, addrs, env, i);
    Frozen(Outcomes(cid, env), addrs, i + 1, |addrs|);
  }

  /** Every outcome of a real candidate is sound. */
  lemma OutcomesSound(cid: Int32, env: nat -> Delivery)
    ensures forall b, i :: Sound(Outcomes(cid, env)(b, i))
  {
    forall b, i | true
      ensures Sound(Outcomes(cid, env)(b, i))
    {
      if |b| == MaxPacketLen {
        var o := Attempt(b, cid, env(i));
      }
    }
  }

  /** Once a request has halted, later candidates change nothing. */
  lemma {:induction false} Frozen(attempt: (seq<byte>, nat) -> Outcome, addrs: seq<string>, i: nat, n: nat)
    requires i <= n <= |addrs|
    requires Run(attempt, addrs, i).halted
    ensures Run(attempt, addrs, n) == Run(attempt, addrs, i)
    decreases n - i
  {
    if n > i {
      Frozen(attempt, addrs, i, n - 1);
    }
  }

  /** The request has an answer exactly when some candidate it reached answered. */
  lemma {:induction false} ReplyIffAnswered(attempt: (seq<byte>, nat) -> Outcome, addrs: seq<string>, n: nat)
    requires n <= |addrs|
    ensures Run(attempt, addrs, n).reply.Some? <==> exists i :: 0 <= i < n && AnsweredAt(attempt, addrs, i)
  {
    if n > 0 {
      ReplyIffAnswered(attempt, addrs, n - 1);
      if AnsweredAt(attempt, addrs, n - 1) {
        assert Run(attempt, addrs, n).reply.Some?;
      } else if Run(attempt, addrs, n).reply.Some? {
        assert Run(attempt, addrs, n - 1).reply.Some?;
      }
    }
  }

  /** The answer is the payload of the last candidate that answered: the walk does not stop at the first. */
  lemma {:induction false} LastAnswerWins(attempt: (seq<byte>, nat) -> Outcome, addrs: seq<string>, i: nat, n: nat)
    requires i < n <= |addrs|
    requires AnsweredAt(attempt, addrs, i)
    requires forall j :: i < j < n ==> !AnsweredAt(attempt, addrs, j)
    ensures Run(attempt, addrs, n).reply == Some(attempt(Run(attempt, addrs, i).buf, i).payload)
    decreases n - i
  {
    if n > i + 1 {
      LastAnswerWins(attempt, addrs, i, n - 1);
      assert !AnsweredAt(attempt, addrs, n - 1);
    }
  }

  /** Exactly the candidates whose receive timed out are dropped from the view. */
  lemma {:induction false} DroppedIffTimedOut(attempt: (seq<byte>, nat) -> Outcome, addrs: seq<string>, n: nat, x: string)
    requires n <= |addrs|
    ensures x in Run(attempt, addrs, n).dropped <==> exists i :: 0 <= i < n && addrs[i] == x && TimedOutAt(attempt, addrs, i)
  {
    if n > 0 {
      DroppedIffTimedOut(attempt, addrs, n - 1, x);
      if TimedOutAt(attempt, addrs, n - 1) && addrs[n - 1] == x {
        assert x in Run(attempt, addrs, n).dropped;
      } else if x in Run(attempt, addrs, n).dropped {
        assert x in Run(attempt, addrs, n - 1).dropped;
      }
    }
  }

  /**
   * A datagram that echoes the call id ends the wait, whatever came before
   * it in the buffer.
   */
  lemma OwnCallHeard(buf: seq<byte>, p: seq<byte>, rest: seq<seq<byte>>, cid: Int32)
    requires |buf| == MaxPacketLen
    requires |p| >= HeaderLen && p[..4] == PutInt(cid)
    ensures Await(buf, [p] + rest, cid) == Heard(Land(buf, p), Min(|p|, MaxPacketLen))
  {
    GetPutInt(cid);
    LandBytes(buf, p);
    assert Land(buf, p)[..4] == p[..4];
  }

  /**
   * A server's reply frame for this call, `callid ++ REPLY ++ payload`,
   * hands the caller exactly the payload when it fits one datagram.
   */
  lemma ReplyDelivered(buf: seq<byte>, cid: Int32, payload: seq<byte>, rest: seq<seq<byte>>)
    requires |buf| == MaxPacketLen
    requires 1 <= |payload| <= MaxPacketLen - HeaderLen
    ensures Attempt(buf, cid, Arrivals([PutInt(cid) + PutShort(OpReply) + payload] + rest)).Answered?
    ensures Attempt(buf, cid, Arrivals([PutInt(cid) + PutShort(OpReply) + payload] + rest)).payload == payload
  {
    var p := PutInt(cid) + PutShort(OpReply) + payload;
    OwnCallHeard(buf, p, rest, cid);
    GetPutShort(OpReply);
    var b := Land(buf, p);
    LandBytes(buf, p);
    assert b[4..6] == PutShort(OpReply);
    assert b[HeaderLen..|p|] == payload;
  }
}
