/**
 * `gossipViewUpdate` of `View`: ask one member of the view for its view,
 * and merge the answer.  The member is picked arbitrarily (`Random.nextInt`
 * in the system).
 */
module Gossip {
  import opened Wrappers
  import opened JavaInt
  import opened Text
  import opened Bytes
  import opened Addresses
  import opened Membership
  import opened NetUtils

  /** Whether an answer is merged: there is one and it is longer than one byte. */
  predicate Mergeable(reply: Option<seq<byte>>)
  {
    reply.Some? && |reply.value| > 1
  }

  /**
   * One gossip round.  An empty view sends nothing and changes nothing.
   * Otherwise a `GET_VIEW` request carrying this server's address goes to
   * one member; the view is the old one less the member when it timed out,
   * plus the admissible addresses of the answer when the answer is merged.
   */
  method GossipViewUpdate(view: View, caller: Caller, resolves: string -> bool, socketOk: bool, env: nat -> Delivery)
    returns (ghost target: string, ghost reply: Option<seq<byte>>, ghost frame: seq<byte>)
    requires view.Valid()
    modifies view, caller
    ensures view.Valid()
    ensures old(view.viewset) == {} ==>
      view.viewset == {} && caller.callID == old(caller.callID) && reply == None
    ensures old(view.viewset) != {} ==>
      && target in old(view.viewset)
      && caller.callID == (if socketOk then Inc(old(caller.callID)) else old(caller.callID))
      && (socketOk ==> frame == RequestFrame(old(caller.callID), OpGetView, Encode(OwnIP)))
      && reply == (if socketOk then Steps(old(caller.callID), [target], env, 1).reply else None)
      && var after := old(view.viewset) - (if socketOk then Elems(Steps(old(caller.callID), [target], env, 1).dropped) else {});
         view.viewset == if Mergeable(reply) then after + Admissible(Split(Decode(reply.value), '_'), resolves) else after
  {
    target := "";
    reply := None;
    frame := [];
    var members := view.GetView();
    if |members| == 0 {
      return;
    }
    var viewIdx :| 0 <= viewIdx < |members|;
    target := members[viewIdx];
    var args := Encode(OwnIP);
    var answer;
    answer, frame := caller.SendRequest(OpGetView, args, [members[viewIdx]], view, socketOk, env);
    reply := answer;
    if answer.Some? && |answer.value| > 1 {
      view.MergeView(Decode(answer.value), resolves);
    }
  }

  /**
   * Gossiping with a member whose own view is empty (it answers the null
   * address) leaves the view as the request left it.
   */
  lemma GossipWithEmptyPeer(after: set<string>, resolves: string -> bool)
    ensures after + Admissible(Split(Decode(Encode(NullIP)), '_'), resolves) == after
  {
    DecodeEncode(NullIP);
    MergeNullIP(resolves);
  }
}
