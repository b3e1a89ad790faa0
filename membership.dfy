/**
 * The membership view of `View`: the set of peer addresses this server
 * knows of, from which the null address and its own address are always
 * kept out, its `_`-joined text form, merging a peer's text form, the
 * down-sampling to `MaxViewSize` addresses, and the bootstrap item list.
 *
 * Addresses are their dotted text.  Name resolution (`InetAddress.getByName`)
 * is the identity when it succeeds; whether it succeeds for a name is the
 * parameter `resolves`.
 */
module Membership {
  import opened JavaInt
  import opened Text
  import opened Seqs
  import opened Addresses

  const MaxViewSize: nat := 5

  /** The view after `addAddr(addr)`: the null address and the own address are never let in. */
  function Admit(v: set<string>, addr: string): (r: set<string>)
    ensures addr in r <==> addr in v || (addr != NullIP && addr != OwnIP)
    ensures r - {addr} == v - {addr}
  {
    if addr == NullIP || addr == OwnIP then v else v + {addr}
  }

  /** The addresses among `fs` that `addAddr` would let in. */
  function Admissible(fs: seq<string>, resolves: string -> bool): set<string>
  {
    set f | f in fs && resolves(f) && f != NullIP && f != OwnIP
  }

  /** `getString` for a view listed as `order`: the members joined by `_`, or the null address. */
  function ViewString(order: seq<string>): string
  {
    if |order| == 0 then NullIP else Join(order, '_')
  }

  /** One entry of the list `updateBootstrapView` publishes: an item name and its `ip` attribute. */
  datatype Item = Item(name: string, ip: string)

  /** The published list for a view listed as `order`: `server0 .. serverN`, the last one carrying the own address. */
  function Published(order: seq<string>): seq<Item>
  {
    seq(|order| + 1, i requires 0 <= i <= |order| =>
      Item("server" + Decimal(i), if i < |order| then order[i] else OwnIP))
  }

  /** The static view of `View`. */
  class View {
    var viewset: set<string>

    /** The null address and the own address are never members. */
    ghost predicate Valid()
      reads this
    {
      NullIP !in viewset && OwnIP !in viewset
    }

    constructor ()
      ensures Valid() && viewset == {}
    {
      viewset := {};
    }

    /**
     * `addAddr(InetAddress)`: the null and own addresses answer true and
     * change nothing; any other address answers whether it was new.
     */
    method AddAddr(addr: string) returns (added: bool)
      requires Valid()
      modifies this
      ensures Valid()
      ensures viewset == Admit(old(viewset), addr)
      ensures added <==> addr == NullIP || addr == OwnIP || addr !in old(viewset)
    {
      if addr == NullIP || addr == OwnIP {
        return true;
      }
      added := addr !in viewset;
      viewset := viewset + {addr};
    }

    /** `addAddr(String)`: a name that does not resolve answers false and changes nothing. */
    method AddAddrByName(addr: string, resolves: string -> bool) returns (added: bool)
      requires Valid()
      modifies this
      ensures Valid()
      ensures !resolves(addr) ==> !added && viewset == old(viewset)
      ensures resolves(addr) ==> viewset == Admit(old(viewset), addr)
      ensures resolves(addr) ==> (added <==> addr == NullIP || addr == OwnIP || addr !in old(viewset))
    {
      if !resolves(addr) {
        return false;
      }
      added := AddAddr(addr);
    }

    /** `removeAddr`: answers whether the address was a member; it is not one afterwards. */
    method RemoveAddr(addr: string) returns (removed: bool)
      requires Valid()
      modifies this
      ensures Valid()
      ensures removed <==> addr in old(viewset)
      ensures viewset == old(viewset) - {addr}
    {
      removed := addr in viewset;
      viewset := viewset - {addr};
    }

    /** `getView`: every member once, in the hash set's order. */
    method GetView() returns (v: seq<string>)
      ensures Enumerates(v, viewset)
    {
      v := ToSeq(viewset);
    }

    /** `reduceSetSize`: keeps an arbitrary `min(size, MaxViewSize)` of the members. */
    method ReduceSetSize()
      requires Valid()
      modifies this
      ensures Valid()
      ensures viewset <= old(viewset)
      ensures |viewset| == Min(|old(viewset)|, MaxViewSize)
    {
      var tmp := GetView();
      var newsize := Min(|tmp|, MaxViewSize);
      PrefixSetSize(tmp, newsize);
      viewset := PrefixSet(tmp, newsize);
    }

    /**
     * `getString`: the null address for an empty view, otherwise the members
     * joined by `_`; `order` is the order `getView` listed them in.
     */
    method GetString() returns (s: string, ghost order: seq<string>)
      ensures Enumerates(order, viewset)
      ensures s == ViewString(order)
    {
      var addrs := GetView();
      order := addrs;
      if |addrs| == 0 {
        return NullIP, order;
      }
      s := addrs[0];
      for i := 1 to |addrs|
        invariant s == Join(addrs[..i], '_')
      {
        JoinSnoc(addrs[..i], addrs[i], '_');
        assert addrs[..i + 1] == addrs[..i] + [addrs[i]];
        s := s + "_" + addrs[i];
      }
      assert addrs[..|addrs|] == addrs;
    }

    /** `addAddr(String)` of each address in turn. */
    method AddAll(addrs: seq<string>, resolves: string -> bool)
      requires Valid()
      modifies this
      ensures Valid()
      ensures viewset == old(viewset) + Admissible(addrs, resolves)
    {
      for i := 0 to |addrs|
        invariant Valid()
        invariant viewset == old(viewset) + Admissible(addrs[..i], resolves)
      {
        assert addrs[..i + 1] == addrs[..i] + [addrs[i]];
        var added := AddAddrByName(addrs[i], resolves);
      }
      assert addrs[..|addrs|] == addrs;
    }

    /** `mergeView`: `addAddr` of every `_`-separated field of `addrs`. */
    method MergeView(addrs: string, resolves: string -> bool)
      requires Valid()
      modifies this
      ensures Valid()
      ensures viewset == old(viewset) + Admissible(Split(addrs, '_'), resolves)
    {
      AddAll(Split(addrs, '_'), resolves);
    }

    /** `bootstrapView`: `addAddr` of the `ip` attribute of every bootstrap item. */
    method BootstrapView(entries: seq<string>, resolves: string -> bool)
      requires Valid()
      modifies this
      ensures Valid()
      ensures viewset == old(viewset) + Admissible(entries, resolves)
    {
      AddAll(entries, resolves);
    }

    /**
     * `updateBootstrapView` without the database calls: take in the
     * bootstrap entries, keep at most `MaxViewSize` members, and build the
     * list to publish.
     */
    method UpdateBootstrapView(entries: seq<string>, resolves: string -> bool) returns (items: seq<Item>, ghost order: seq<string>)
      requires Valid()
      modifies this
      ensures Valid()
      ensures viewset <= old(viewset) + Admissible(entries, resolves)
      ensures |viewset| == Min(|old(viewset) + Admissible(entries, resolves)|, MaxViewSize)
      ensures Enumerates(order, viewset)
      ensures items == Published(order)
    {
      BootstrapView(entries, resolves);
      ReduceSetSize();
      var view := GetView();
      order := view;
      items := [];
      for i := 0 to |view|
        invariant items == Published(view)[..i]
      {
        items := items + [Item("server" + Decimal(i), view[i])];
      }
      items := items + [Item("server" + Decimal(|view|), OwnIP)];
    }
  }

  // ---------------------------------------------------------------------
  // Lemmas
  // ---------------------------------------------------------------------

  /** Merging the null address (what an empty view sends) adds nothing. */
  lemma MergeNullIP(resolves: string -> bool)
    ensures Admissible(Split(NullIP, '_'), resolves) == {}
  {
    FieldsOfPlain(NullIP, '_');
    assert Split(NullIP, '_') == [NullIP];
  }

  /**
   * The text form of a non-empty view splits back into its members, when
   * no member is empty or holds `_`.
   */
  lemma ViewStringFields(order: seq<string>)
    requires |order| >= 1 && FreeOf(order, '_')
    requires forall i :: 0 <= i < |order| ==> order[i] != ""
    ensures Split(ViewString(order), '_') == order
  {
    SplitOfJoin(order, '_');
  }

  /**
   * Merging a peer's `getString` adds exactly its members other than the
   * null and own addresses, when every member resolves, is not empty and
   * holds no `_`.
   */
  lemma MergePeerString(peer: set<string>, order: seq<string>, resolves: string -> bool)
    requires Enumerates(order, peer)
    requires FreeOf(order, '_')
    requires forall i :: 0 <= i < |order| ==> order[i] != ""
    requires forall a :: a in peer ==> resolves(a)
    ensures Admissible(Split(ViewString(order), '_'), resolves) == peer - {NullIP, OwnIP}
  {
    if |order| == 0 {
      MergeNullIP(resolves);
    } else {
      ViewStringFields(order);
    }
  }

  /** A second `addAddr` of the same address changes nothing more, and answers false unless the address is excluded. */
  lemma AdmitTwice(v: set<string>, addr: string)
    ensures Admit(Admit(v, addr), addr) == Admit(v, addr)
    ensures addr != NullIP && addr != OwnIP ==> addr in Admit(v, addr)
  {
  }

  /** The published list has one item per member plus one for the own address, named in order. */
  lemma PublishedShape(order: seq<string>)
    ensures |Published(order)| == |order| + 1
    ensures Published(order)[|order|] == Item("server" + Decimal(|order|), OwnIP)
    ensures forall i :: 0 <= i < |order| ==> Published(order)[i].ip == order[i]
    ensures forall i, j :: 0 <= i < j <= |order| ==> Published(order)[i].name != Published(order)[j].name
  {
    forall i, j | 0 <= i < j <= |order|
      ensures Published(order)[i].name != Published(order)[j].name
    {
      if Published(order)[i].name == Published(order)[j].name {
        assert "server" + Decimal(i) == "server" + Decimal(j);
        assert Decimal(i) == ("server" + Decimal(i))[6..];
        assert Decimal(j) == ("server" + Decimal(j))[6..];
        DecimalInjective(i, j);
      }
    }
  }
}
