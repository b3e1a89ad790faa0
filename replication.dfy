/**
 * Reading and writing a session across servers (`readSession` and
 * `writeSession` of `SessionState`): which servers are asked, and what is
 * stored locally.
 */
module Replication {
  import opened Wrappers
  import opened JavaInt
  import opened Seqs
  import opened Addresses
  import opened Cookies
  import opened Sessions
  import opened Membership
  import opened NetUtils

  /** What `readSession` ends with: a record, `null`, or an exception that escapes it. */
  datatype ReadResult = Found(session: SessionState) | NotFound | Threw

  /** The servers `readSession` asks: the listed ones, without the null address and names that do not resolve. */
  function ReadTargets(serverips: seq<string>, resolves: string -> bool): (r: seq<string>)
    ensures |r| <= |serverips|
    ensures forall k :: 0 <= k < |r| ==> r[k] in serverips && r[k] != NullIP && resolves(r[k])
  {
    if |serverips| == 0 then []
    else
      var rest := ReadTargets(serverips[..|serverips| - 1], resolves);
      var ip := serverips[|serverips| - 1];
      if ip == NullIP || !resolves(ip) then rest else rest + [ip]
  }

  /** The cookie's servers `writeSession` tries first: the listed ones other than itself and the null address that resolve. */
  function PreferredTargets(oldips: seq<string>, resolves: string -> bool): (r: seq<string>)
    ensures |r| <= |oldips|
    ensures forall k :: 0 <= k < |r| ==> r[k] in oldips && r[k] != OwnIP && r[k] != NullIP && resolves(r[k])
  {
    if |oldips| == 0 then []
    else
      var rest := PreferredTargets(oldips[..|oldips| - 1], resolves);
      var ip := oldips[|oldips| - 1];
      if ip == OwnIP || ip == NullIP || !resolves(ip) then rest else rest + [ip]
  }

  /** The members of `order` not already in `first`, in order. */
  function Others(order: seq<string>, first: seq<string>): (r: seq<string>)
    ensures |r| <= |order|
    ensures forall k :: 0 <= k < |r| ==> r[k] in order && r[k] !in first
  {
    if |order| == 0 then []
    else
      var rest := Others(order[..|order| - 1], first);
      var ip := order[|order| - 1];
      if ip in first then rest else rest + [ip]
  }

  /**
   * The servers `writeSession` asks: the preferred ones from the cookie
   * (none when there is no cookie list), then the view's members that are
   * not among them.
   */
  function WriteTargets(oldips: Option<seq<string>>, order: seq<string>, resolves: string -> bool): (r: seq<string>)
    ensures |r| <= (if oldips.Some? then |oldips.value| else 0) + |order|
    ensures forall k :: 0 <= k < |r| ==>
      || r[k] in order
      || (oldips.Some? && r[k] in oldips.value && r[k] != OwnIP && r[k] != NullIP && resolves(r[k]))
  {
    var first := if oldips.Some? then PreferredTargets(oldips.value, resolves) else [];
    first + Others(order, first)
  }

  /** Builds the list of servers `readSession` asks. */
  method ReadCandidates(serverips: seq<string>, resolves: string -> bool) returns (ips: seq<string>)
    ensures ips == ReadTargets(serverips, resolves)
  {
    ips := [];
    for i := 0 to |serverips|
      invariant ips == ReadTargets(serverips[..i], resolves)
    {
      assert serverips[..i + 1][..i] == serverips[..i];
      var ip := serverips[i];
      if ip == NullIP {
        continue;
      }
      if resolves(ip) {
        ips := ips + [ip];
      }
    }
    assert serverips[..|serverips|] == serverips;
  }

  /** The first loop of `writeSession`: the cookie's servers worth asking, in order. */
  method PreferredCandidates(list: seq<string>, resolves: string -> bool) returns (ips: seq<string>)
    ensures ips == PreferredTargets(list, resolves)
  {
    ips := [];
    for i := 0 to |list|
      invariant ips == PreferredTargets(list[..i], resolves)
    {
      assert list[..i + 1][..i] == list[..i];
      var ip := list[i];
      if ip == OwnIP || ip == NullIP {
        continue;
      }
      if resolves(ip) {
        ips := ips + [ip];
      }
    }
    assert list[..|list|] == list;
  }

  /** Builds the list of servers `writeSession` asks, from the cookie's list and the view. */
  method WriteCandidates(oldips: Option<seq<string>>, view: View, resolves: string -> bool)
    returns (ips: seq<string>, ghost order: seq<string>)
    ensures Enumerates(order, view.viewset)
    ensures ips == WriteTargets(oldips, order, resolves)
  {
    var writeIP: seq<string> := [];
    if oldips.Some? {
      writeIP := PreferredCandidates(oldips.value, resolves);
    }
    var members := view.GetView();
    order := members;
    ips := OtherCandidates(members, writeIP);
  }

  /** The second loop of `writeSession`: the view's members not asked yet join the list. */
  method OtherCandidates(members: seq<string>, first: seq<string>) returns (ips: seq<string>)
    requires Distinct(members)
    ensures ips == first + Others(members, first)
  {
    ips := first;
    for i := 0 to |members|
      invariant ips == first + Others(members[..i], first)
    {
      var ip := members[i];
      OthersFresh(members, i, first);
      if ip !in ips {
        ips := ips + [ip];
      }
    }
    assert members[..|members|] == members;
  }

  /**
   * `readSession`: when this server is among the listed ones, take the
   * record out of the local table, whatever its version; otherwise ask the
   * other listed servers.
   */
  method ReadSession(table: SessionTable, caller: Caller, view: View, sessionid: string, version: Int32,
                     serverips: seq<string>, resolves: string -> bool, socketOk: bool, env: nat -> Delivery)
    returns (r: ReadResult, ghost targets: seq<string>)
    requires table.Valid() && view.Valid()
    modifies table`statemap, caller, view
    ensures table.Valid() && view.Valid()
    ensures OwnIP in serverips ==>
      && (r == if sessionid in old(table.statemap) then Found(old(table.statemap)[sessionid]) else NotFound)
      && table.statemap == old(table.statemap) - {sessionid}
      && caller.callID == old(caller.callID) && view.viewset == old(view.viewset)
    ensures OwnIP !in serverips ==>
      && table.statemap == old(table.statemap)
      && targets == ReadTargets(serverips, resolves)
      && caller.callID == (if socketOk then Inc(old(caller.callID)) else old(caller.callID))
      && view.viewset == old(view.viewset) - (if socketOk then Elems(Steps(old(caller.callID), targets, env, |targets|).dropped) else {})
      && var reply := if socketOk then Steps(old(caller.callID), targets, env, |targets|).reply else None;
         && (r.Found? <==> reply.Some? && Parse(reply.value).Some?) && !r.NotFound?
         && (r.Found? ==> var p := Parse(reply.value).value;
              && fresh(r.session) && r.session.expDate == None
              && r.session.sessionid == MakeId(p.sessionNo, p.serverId)
              && r.session.version == p.version && r.session.message == p.message)
  {
    targets := [];
    if OwnIP in serverips {
      var s := table.RemoveSession(sessionid);
      return if s == null then NotFound else Found(s), targets;
    }
    var ips := ReadCandidates(serverips, resolves);
    targets := ips;
    var got, frame := caller.SessionReadClient(sessionid, version, ips, view, socketOk, env);
    r := if got.Some? then Found(got.value) else Threw;
  }

  /**
   * `writeSession`: ask the candidate servers to store the record, store it
   * locally with the local expiry, and answer this server's address with
   * the address of the server that took the copy (or the null address).
   */
  method WriteSession(table: SessionTable, caller: Caller, view: View, session: SessionState,
                      oldips: Option<seq<string>>, resolves: string -> bool, socketOk: bool, env: nat -> Delivery, now: int)
    returns (ips: seq<string>, ghost targets: seq<string>)
    requires table.Valid() && view.Valid()
    modifies table`statemap, session`expDate, caller, view
    ensures table.Valid() && view.Valid()
    ensures exists order :: Enumerates(order, old(view.viewset)) && targets == WriteTargets(oldips, order, resolves)
    ensures ips == [OwnIP, WrittenTo(if socketOk then Steps(old(caller.callID), targets, env, |targets|).reply else None)]
    ensures caller.callID == if socketOk then Inc(old(caller.callID)) else old(caller.callID)
    ensures view.viewset == old(view.viewset) - (if socketOk then Elems(Steps(old(caller.callID), targets, env, |targets|).dropped) else {})
    ensures session.expDate == Some(now + SessionExpTime)
    ensures table.statemap == old(table.statemap)[session.sessionid := session]
  {
    ghost var order;
    var candidates;
    candidates, order := WriteCandidates(oldips, view, resolves);
    targets := candidates;
    var ip, frame := caller.SessionWriteClient(session, candidates, view, socketOk, env);
    table.AddSession(session, SessionExpTime, now);
    ips := [OwnIP, ip];
  }

  // ---------------------------------------------------------------------
  // Lemmas
  // ---------------------------------------------------------------------

  /** One more view member joins the list exactly when it is not there yet. */
  lemma OthersFresh(order: seq<string>, i: nat, first: seq<string>)
    requires i < |order| && Distinct(order)
    ensures order[i] in first + Others(order[..i], first) <==> order[i] in first
    ensures Others(order[..i + 1], first) == if order[i] in first then Others(order[..i], first) else Others(order[..i], first) + [order[i]]
  {
    assert order[..i + 1][..i] == order[..i];
    OthersMembers(order[..i], first, order[i]);
    assert order[i] !in order[..i];
  }

  /** A server is read from exactly when it is listed, is not the null address, and resolves. */
  lemma {:induction false} ReadTargetsMembers(serverips: seq<string>, resolves: string -> bool, x: string)
    ensures x in ReadTargets(serverips, resolves) <==> x in serverips && x != NullIP && resolves(x)
  {
    if |serverips| > 0 {
      var init := serverips[..|serverips| - 1];
      ReadTargetsMembers(init, resolves, x);
      assert serverips == init + [serverips[|serverips| - 1]];
    }
  }

  /** The preferred servers are the listed ones other than this server and the null address that resolve. */
  lemma {:induction false} PreferredMembers(oldips: seq<string>, resolves: string -> bool, x: string)
    ensures x in PreferredTargets(oldips, resolves) <==> x in oldips && x != OwnIP && x != NullIP && resolves(x)
  {
    if |oldips| > 0 {
      var init := oldips[..|oldips| - 1];
      PreferredMembers(init, resolves, x);
      assert oldips == init + [oldips[|oldips| - 1]];
    }
  }

  /** `Others` keeps exactly the members not already in `first`. */
  lemma {:induction false} OthersMembers(order: seq<string>, first: seq<string>, x: string)
    ensures x in Others(order, first) <==> x in order && x !in first
  {
    if |order| > 0 {
      var init := order[..|order| - 1];
      OthersMembers(init, first, x);
      assert order == init + [order[|order| - 1]];
    }
  }

  /** `Others` of a list without repetitions has none. */
  lemma {:induction false} OthersDistinct(order: seq<string>, first: seq<string>)
    requires Distinct(order)
    ensures Distinct(Others(order, first))
  {
    if |order| > 0 {
      var init := order[..|order| - 1];
      OthersDistinct(init, first);
      var ip := order[|order| - 1];
      if ip !in first {
        OthersMembers(init, first, ip);
        assert ip !in init;
      }
    }
  }

  /**
   * The servers asked to store a copy are the cookie's preferred servers
   * and the view's members; neither this server nor the null address is
   * among them, and no view member is asked twice.
   */
  lemma WriteTargetsMembers(oldips: Option<seq<string>>, order: seq<string>, viewset: set<string>, resolves: string -> bool, x: string)
    requires Enumerates(order, viewset) && NullIP !in viewset && OwnIP !in viewset
    ensures var first := if oldips.Some? then PreferredTargets(oldips.value, resolves) else [];
      x in WriteTargets(oldips, order, resolves) <==> x in first || x in viewset
    ensures x in WriteTargets(oldips, order, resolves) ==> x != OwnIP && x != NullIP
    ensures Distinct(Others(order, if oldips.Some? then PreferredTargets(oldips.value, resolves) else []))
  {
    var first := if oldips.Some? then PreferredTargets(oldips.value, resolves) else [];
    OthersMembers(order, first, x);
    OthersDistinct(order, first);
    if oldips.Some? {
      PreferredMembers(oldips.value, resolves, x);
    }
  }
}
