/**
 * Address lists as the mail parser produces them, and the helpers over them:
 * flattening groups, building a list, and taking the domain of the first address.
 */
module Addresses {
  import opened Common

  /** One mailbox: the address and an optional display name. */
  datatype SingleInfo = SingleInfo(addr: Bytes, displayName: Option<Bytes>)

  /** An entry of an address list: a single mailbox or a named group of mailboxes. */
  datatype MailAddr = Single(info: SingleInfo) | Group(groupName: Bytes, addrs: seq<SingleInfo>)

  type AddrList = seq<MailAddr>

  /** The mailboxes one entry stands for. */
  function Expand(a: MailAddr): seq<SingleInfo>
  {
    match a
    case Single(s) => [s]
    case Group(_, addrs) => addrs
  }

  /** Every mailbox of the list, groups expanded in place, in list order. */
  function IterAddrs(l: AddrList): (r: seq<SingleInfo>)
    ensures forall x :: x in r <==> exists i :: 0 <= i < |l| && x in Expand(l[i])
  {
    if l == [] then [] else Expand(l[0]) + IterAddrs(l[1..])
  }

  /** A list of single entries, one per mailbox, in order. */
  function AddrListFromIter(xs: seq<SingleInfo>): (l: AddrList)
    ensures |l| == |xs|
    ensures forall i :: 0 <= i < |l| ==> l[i] == Single(xs[i])
  {
    seq(|xs|, i requires 0 <= i < |xs| => Single(xs[i]))
  }

  /** The list holding one mailbox with no display name. */
  function AddrSingle(addr: Bytes): (l: AddrList)
    ensures FirstAddr(l) == Some(SingleInfo(addr, None))
    ensures IterAddrs(l) == [SingleInfo(addr, None)]
  {
    AddrListFromIter([SingleInfo(addr, None)])
  }

  /** The first mailbox the flattened list yields, if any. */
  function FirstAddr(l: AddrList): Option<SingleInfo>
  {
    var all := IterAddrs(l);
    if all == [] then None else Some(all[0])
  }

  /** The text after the first `@` of the first mailbox. */
  function DomainOf(l: AddrList): (r: Option<Bytes>)
    ensures r.Some? ==> FirstAddr(l).Some?
    ensures r.Some? ==> var a := FirstAddr(l).value.addr;
      |r.value| < |a| && a[|a| - |r.value| - 1] == AT && a[|a| - |r.value|..] == r.value
  {
    match FirstAddr(l)
    case None => None
    case Some(a) =>
      match Find(a.addr, [AT])
      case None => None
      case Some(k) => Some(a.addr[k + 1..])
  }

  /** Flattening distributes over concatenation of lists. */
  lemma {:induction false} IterAddrsAppend(a: AddrList, b: AddrList)
    ensures IterAddrs(a + b) == IterAddrs(a) + IterAddrs(b)
    decreases |a|
  {
    if a == [] {
      assert a + b == b;
    } else {
      assert (a + b)[0] == a[0];
      assert (a + b)[1..] == a[1..] + b;
      IterAddrsAppend(a[1..], b);
    }
  }

  /** Building a list from mailboxes and flattening it again gives the mailboxes back. */
  lemma {:induction false} IterAddrsFromIter(xs: seq<SingleInfo>)
    ensures IterAddrs(AddrListFromIter(xs)) == xs
    decreases |xs|
  {
    if xs != [] {
      assert AddrListFromIter(xs)[1..] == AddrListFromIter(xs[1..]);
      IterAddrsFromIter(xs[1..]);
    }
  }

  /** The list yields no mailbox exactly when every entry is an empty group. */
  lemma {:induction false} FirstAddrNone(l: AddrList)
    ensures FirstAddr(l).None? <==> forall i :: 0 <= i < |l| ==> Expand(l[i]) == []
    decreases |l|
  {
    if l != [] {
      FirstAddrNone(l[1..]);
      if Expand(l[0]) == [] {
        forall i | 0 < i < |l| ensures l[i] == l[1..][i - 1] { }
      }
    }
  }

  /** The first mailbox is the first one of the first entry that is not an empty group. */
  lemma {:induction false} FirstAddrAt(l: AddrList, i: nat)
    requires i < |l| && Expand(l[i]) != []
    requires forall j :: 0 <= j < i ==> Expand(l[j]) == []
    ensures FirstAddr(l) == Some(Expand(l[i])[0])
    decreases i
  {
    if i > 0 {
      forall j | 0 <= j < i - 1 ensures Expand(l[1..][j]) == [] {
        assert l[1..][j] == l[j + 1];
      }
      FirstAddrAt(l[1..], i - 1);
    }
  }

  /** In `local @ rest` with no `@` in `local`, the first `@` is the one after `local`. */
  lemma FirstAt(local: Bytes, rest: Bytes)
    requires AT !in local
    ensures Find(local + [AT] + rest, [AT]) == Some(|local|)
  {
    var s := local + [AT] + rest;
    assert OccursAt(s, |local|, [AT]);
    forall j: nat | j < |local| ensures !OccursAt(s, j, [AT]) {
      assert s[j] == local[j];
    }
  }

  /** A byte string has no `@` exactly when the search for one fails. */
  lemma NoAt(s: Bytes)
    ensures AT !in s <==> Find(s, [AT]).None?
  {
    if AT in s {
      var k :| 0 <= k < |s| && s[k] == AT;
      assert OccursAt(s, k, [AT]);
    } else {
      forall k: nat ensures !OccursAt(s, k, [AT]) {
        if k < |s| { assert s[k] != AT; }
      }
    }
  }

  /** The domain is missing exactly when there is no mailbox or its address has no `@`. */
  lemma DomainOfNone(l: AddrList)
    ensures DomainOf(l).None? <==> FirstAddr(l).None? || AT !in FirstAddr(l).value.addr
  {
    if FirstAddr(l).Some? {
      NoAt(FirstAddr(l).value.addr);
    }
  }

  /** When defined, the domain is what follows the first `@` of the first mailbox's address. */
  lemma DomainOfSome(l: AddrList, d: Bytes)
    ensures DomainOf(l) == Some(d) <==>
      FirstAddr(l).Some? && exists local :: AT !in local && FirstAddr(l).value.addr == local + [AT] + d
  {
    if FirstAddr(l).Some? {
      var a := FirstAddr(l).value.addr;
      if exists local :: AT !in local && a == local + [AT] + d {
        var local :| AT !in local && a == local + [AT] + d;
        FirstAt(local, d);
      }
      if DomainOf(l) == Some(d) {
        SplitAtFirstAt(a, d);
      }
    }
  }

  /** An address whose first `@` is followed by `d` is `local @ d` with no `@` in `local`. */
  lemma SplitAtFirstAt(a: Bytes, d: Bytes)
    requires Find(a, [AT]).Some? && a[Find(a, [AT]).value + 1..] == d
    ensures exists local :: AT !in local && a == local + [AT] + d
  {
    var k := Find(a, [AT]).value;
    var local := a[..k];
    assert a == local + [AT] + d;
    forall j | 0 <= j < |local| ensures local[j] != AT {
      assert !OccursAt(a, j, [AT]);
    }
  }

  /** The domain of a single-address list built from `local@domain` is `domain`. */
  lemma DomainOfAddrSingle(local: Bytes, domain: Bytes)
    requires AT !in local
    ensures DomainOf(AddrSingle(local + [AT] + domain)) == Some(domain)
  {
    IterAddrsFromIter([SingleInfo(local + [AT] + domain, None)]);
    FirstAt(local, domain);
  }
}
