/**
  The scan callback of src/ble.rs: one candidate per address, upgraded when the probe turns out
  to be in setup mode.
 */
module ProbeScan {
  import opened Advertisement
  import opened Wrappers

  type Address = nat

  datatype Advert = Advert(addr: Address, name: Option<Text>, data: Option<ManufacturerData>)

  datatype Candidate = Candidate(addr: Address, meta: ProbeMeta)

  /** What the callback makes of an advertisement. */
  function MetaOf(a: Advert): Option<ProbeMeta> {
    MetaFrom(a.data, a.name)
  }

  predicate Fits(c: Candidate, addr: Address, setupOnly: bool) {
    c.addr == addr && (setupOnly ==> c.meta.mode == Setup)
  }

  /** The first candidate with that address (in setup mode), or the length. */
  function First(cs: seq<Candidate>, addr: Address, setupOnly: bool): (k: nat)
    ensures k <= |cs|
    ensures forall i :: 0 <= i < k ==> !Fits(cs[i], addr, setupOnly)
    ensures k < |cs| ==> Fits(cs[k], addr, setupOnly)
  {
    if cs == [] then 0
    else
      var n := |cs| - 1;
      var k := First(cs[..n], addr, setupOnly);
      if k < n then k else if Fits(cs[n], addr, setupOnly) then n else n + 1
  }

  /** The body of the callback, once the advertisement is accepted. */
  function Recorded(seen: seq<Candidate>, c: Candidate): seq<Candidate> {
    var k := First(seen, c.addr, false);
    if k == |seen| then seen + [c]
    else if c.meta.mode == Setup && seen[k].meta.mode != Setup then seen[k := seen[k].(meta := c.meta)]
    else seen
  }

  class Scan {
    var seen: seq<Candidate>

    constructor ()
      ensures seen == []
    {
      seen := [];
    }

    method OnAdvert(a: Advert)
      modifies this
      ensures seen == match MetaOf(a)
        case None => old(seen)
        case Some(meta) => Recorded(old(seen), Candidate(a.addr, meta))
    {
      match MetaOf(a) {
        case None => return;
        case Some(meta) =>
          var i := 0;
          while i < |seen| && seen[i].addr != a.addr
            invariant i <= |seen|
            invariant forall j :: 0 <= j < i ==> seen[j].addr != a.addr
          {
            i := i + 1;
          }
          assert i == First(seen, a.addr, false);
          if i < |seen| {
            if meta.mode == Setup && seen[i].meta.mode != Setup {
              seen := seen[i := seen[i].(meta := meta)];
            }
          } else {
            seen := seen + [Candidate(a.addr, meta)];
          }
      }
    }
  }

  /** `scan_probe_candidates`: the callback on every advertisement in turn. */
  method ScanProbeCandidates(adverts: seq<Advert>) returns (candidates: seq<Candidate>)
    ensures exists accepted :: AcceptedInOrder(adverts, accepted) && candidates == Grouped(accepted)
  {
    var scan := new Scan();
    for i := 0 to |adverts|
      invariant fresh(scan)
      invariant scan.seen == Folded(Accepted(adverts[..i]))
    {
      AcceptNext(adverts, i);
      scan.OnAdvert(adverts[i]);
    }
    assert adverts[..|adverts|] == adverts;
    FoldIsGroupBy(Accepted(adverts));
    AcceptedExactly(adverts, Accepted(adverts));
    return scan.seen;
  }

  /** The accepted advertisements, in order. */
  function Accepted(adverts: seq<Advert>): seq<Candidate> {
    if adverts == [] then []
    else
      var n := |adverts| - 1;
      Accepted(adverts[..n])
        + match MetaOf(adverts[n]) case None => [] case Some(meta) => [Candidate(adverts[n].addr, meta)]
  }

  /** The candidates are those that the advertisements describe, one for each that describes one, in order. */
  ghost predicate AcceptedInOrder(adverts: seq<Advert>, accepted: seq<Candidate>) {
    if adverts == [] then accepted == []
    else
      var n, m := |adverts| - 1, |accepted| - 1;
      var a := adverts[n];
      if exists meta :: Describes(a.data, a.name, meta) then
        && accepted != []
        && accepted[m].addr == a.addr && Describes(a.data, a.name, accepted[m].meta)
        && AcceptedInOrder(adverts[..n], accepted[..m])
      else
        AcceptedInOrder(adverts[..n], accepted)
  }

  lemma {:induction false} AcceptedExactly(adverts: seq<Advert>, accepted: seq<Candidate>)
    ensures AcceptedInOrder(adverts, accepted) <==> accepted == Accepted(adverts)
    decreases |adverts|
  {
    if adverts != [] {
      var n := |adverts| - 1;
      var a, earlier := adverts[n], Accepted(adverts[..n]);
      AcceptedExactly(adverts[..n], accepted);
      forall meta ensures MetaOf(a) == Some(meta) <==> Describes(a.data, a.name, meta) {
        MetaFromExactly(a.data, a.name, meta);
      }
      if MetaOf(a).Some? {
        var c := Candidate(a.addr, MetaOf(a).value);
        assert Describes(a.data, a.name, c.meta);
        assert Accepted(adverts) == earlier + [c];
        if accepted != [] {
          var m := |accepted| - 1;
          AcceptedExactly(adverts[..n], accepted[..m]);
          assert accepted == accepted[..m] + [accepted[m]];
        }
      }
    }
  }

  function Folded(accepted: seq<Candidate>): seq<Candidate> {
    if accepted == [] then [] else Recorded(Folded(accepted[..|accepted| - 1]), accepted[|accepted| - 1])
  }

  lemma AcceptNext(adverts: seq<Advert>, i: nat)
    requires i < |adverts|
    ensures Folded(Accepted(adverts[..i + 1])) ==
      match MetaOf(adverts[i])
      case None => Folded(Accepted(adverts[..i]))
      case Some(meta) => Recorded(Folded(Accepted(adverts[..i])), Candidate(adverts[i].addr, meta))
  {
    assert adverts[..i + 1][..i] == adverts[..i];
    var accepted := Accepted(adverts[..i]);
    match MetaOf(adverts[i])
    case None =>
      assert Accepted(adverts[..i + 1]) == accepted;
    case Some(meta) =>
      var c := Candidate(adverts[i].addr, meta);
      assert Accepted(adverts[..i + 1]) == accepted + [c];
      assert (accepted + [c])[..|accepted|] == accepted;
  }

  // ---------- The group-by ----------

  /** The addresses in the order in which they were first seen. */
  function Addresses(accepted: seq<Candidate>): seq<Address> {
    if accepted == [] then []
    else
      var n := |accepted| - 1;
      var earlier := Addresses(accepted[..n]);
      if accepted[n].addr in earlier then earlier else earlier + [accepted[n].addr]
  }

  /** The first setup advertisement from the address, if there is one; else the first of any kind. */
  function Chosen(accepted: seq<Candidate>, addr: Address): Candidate
    requires exists i :: 0 <= i < |accepted| && accepted[i].addr == addr
  {
    var setup := First(accepted, addr, true);
    if setup < |accepted| then accepted[setup] else accepted[First(accepted, addr, false)]
  }

  lemma {:induction false} AddressesOccur(accepted: seq<Candidate>, addr: Address)
    ensures addr in Addresses(accepted) <==> exists i :: 0 <= i < |accepted| && accepted[i].addr == addr
  {
    if accepted != [] {
      var n := |accepted| - 1;
      var front := accepted[..n];
      AddressesOccur(front, addr);
      if i :| 0 <= i < |accepted| && accepted[i].addr == addr {
        assert i == n || front[i].addr == addr;
      }
      if i :| 0 <= i < |front| && front[i].addr == addr {
        assert accepted[i].addr == addr;
      }
    }
  }

  function Grouped(accepted: seq<Candidate>): seq<Candidate> {
    var addresses := Addresses(accepted);
    seq(|addresses|, i requires 0 <= i < |addresses| =>
      (AddressesOccur(accepted, addresses[i]); Chosen(accepted, addresses[i])))
  }

  /** One more advertisement changes the choice only for its own address, and only to upgrade it. */
  lemma ChosenNext(accepted: seq<Candidate>, c: Candidate, addr: Address)
    requires exists i :: 0 <= i < |accepted| && accepted[i].addr == addr
    ensures exists i :: 0 <= i < |accepted + [c]| && (accepted + [c])[i].addr == addr
    ensures var before := Chosen(accepted, addr);
      && before.addr == addr
      && Chosen(accepted + [c], addr) ==
         if c.addr == addr && c.meta.mode == Setup && before.meta.mode != Setup then c else before
  {
    var longer := accepted + [c];
    var i :| 0 <= i < |accepted| && accepted[i].addr == addr;
    assert longer[i].addr == addr && longer[..|accepted|] == accepted;
    assert !(First(accepted, addr, false) == |accepted|) by {
      assert Fits(accepted[i], addr, false);
    }
  }

  lemma ChosenFresh(accepted: seq<Candidate>, c: Candidate)
    requires c.addr !in Addresses(accepted)
    ensures exists i :: 0 <= i < |accepted + [c]| && (accepted + [c])[i].addr == c.addr
    ensures Chosen(accepted + [c], c.addr) == c
  {
    var longer := accepted + [c];
    assert longer[|accepted|].addr == c.addr && longer[..|accepted|] == accepted;
    AddressesOccur(accepted, c.addr);
  }

  lemma {:induction false} AddressesDistinct(accepted: seq<Candidate>)
    ensures forall i, j :: 0 <= i < j < |Addresses(accepted)| ==> Addresses(accepted)[i] != Addresses(accepted)[j]
  {
    if accepted != [] {
      AddressesDistinct(accepted[..|accepted| - 1]);
    }
  }

  lemma AddressesNext(accepted: seq<Candidate>, c: Candidate)
    ensures Addresses(accepted + [c])
         == if c.addr in Addresses(accepted) then Addresses(accepted) else Addresses(accepted) + [c.addr]
  {
    assert (accepted + [c])[..|accepted|] == accepted;
  }

  /** What one more advertisement does to the group of an address already seen. */
  lemma GroupNext(accepted: seq<Candidate>, c: Candidate, i: nat)
    requires i < |Addresses(accepted)|
    ensures Grouped(accepted)[i].addr == Addresses(accepted)[i]
    ensures |Grouped(accepted + [c])| > i
    ensures Grouped(accepted + [c])[i] ==
      if c.addr == Addresses(accepted)[i] && c.meta.mode == Setup && Grouped(accepted)[i].meta.mode != Setup then c
      else Grouped(accepted)[i]
  {
    var addr := Addresses(accepted)[i];
    AddressesOccur(accepted, addr);
    AddressesNext(accepted, c);
    ChosenNext(accepted, c, addr);
  }

  lemma GroupedNextKnown(accepted: seq<Candidate>, c: Candidate, k: nat)
    requires k < |Addresses(accepted)| && Addresses(accepted)[k] == c.addr
    ensures Grouped(accepted + [c]) == Recorded(Grouped(accepted), c)
  {
    var groups := Grouped(accepted);
    AddressesDistinct(accepted);
    AddressesNext(accepted, c);
    forall i | 0 <= i < |groups|
      ensures groups[i].addr == Addresses(accepted)[i]
      ensures Grouped(accepted + [c])[i]
           == if i == k && c.meta.mode == Setup && groups[i].meta.mode != Setup then c else groups[i]
    {
      GroupNext(accepted, c, i);
    }
    assert Fits(groups[k], c.addr, false);
    assert First(groups, c.addr, false) == k;
  }

  lemma GroupedNextNew(accepted: seq<Candidate>, c: Candidate)
    requires c.addr !in Addresses(accepted)
    ensures Grouped(accepted + [c]) == Recorded(Grouped(accepted), c)
  {
    var groups := Grouped(accepted);
    AddressesNext(accepted, c);
    ChosenFresh(accepted, c);
    forall i | 0 <= i < |groups|
      ensures groups[i].addr != c.addr && Grouped(accepted + [c])[i] == groups[i]
    {
      GroupNext(accepted, c, i);
    }
    assert First(groups, c.addr, false) == |groups|;
  }

  /** The callback computes the group-by, for every sequence of advertisements. */
  lemma {:induction false} FoldIsGroupBy(accepted: seq<Candidate>)
    ensures Folded(accepted) == Grouped(accepted)
  {
    if accepted != [] {
      var n := |accepted| - 1;
      var front, c := accepted[..n], accepted[n];
      assert accepted == front + [c];
      FoldIsGroupBy(front);
      if c.addr in Addresses(front) {
        var k :| 0 <= k < |Addresses(front)| && Addresses(front)[k] == c.addr;
        GroupedNextKnown(front, c, k);
      } else {
        GroupedNextNew(front, c);
      }
    }
  }

  /** A candidate is in setup mode exactly when some accepted advertisement from its address was. */
  lemma SetupExactlyWhenSeen(accepted: seq<Candidate>, i: nat)
    requires i < |Grouped(accepted)|
    ensures Grouped(accepted)[i].addr == Addresses(accepted)[i]
    ensures Grouped(accepted)[i].meta.mode == Setup <==>
      exists j :: 0 <= j < |accepted| && accepted[j].addr == Addresses(accepted)[i] && accepted[j].meta.mode == Setup
  {
    var addr := Addresses(accepted)[i];
    AddressesOccur(accepted, addr);
    var setup := First(accepted, addr, true);
    if setup == |accepted| {
      forall j | 0 <= j < |accepted| && accepted[j].addr == addr
        ensures accepted[j].meta.mode != Setup
      {
        assert !Fits(accepted[j], addr, true);
      }
      assert First(accepted, addr, false) < |accepted| by {
        var j :| 0 <= j < |accepted| && accepted[j].addr == addr;
        assert Fits(accepted[j], addr, false);
      }
    }
  }

  /** The entry for an address is its first setup advertisement, or if it has none, its first of any kind. */
  lemma GroupedIsFirst(accepted: seq<Candidate>, i: nat) returns (k: nat)
    requires i < |Grouped(accepted)|
    ensures var c := Grouped(accepted)[i];
      && k < |accepted| && accepted[k] == c
      && (c.meta.mode == Setup ==>
            forall j :: 0 <= j < k && accepted[j].addr == c.addr ==> accepted[j].meta.mode != Setup)
      && (c.meta.mode != Setup ==>
            && (forall j :: 0 <= j < k ==> accepted[j].addr != c.addr)
            && (forall j :: 0 <= j < |accepted| && accepted[j].addr == c.addr ==> accepted[j].meta.mode != Setup))
  {
    var addr := Addresses(accepted)[i];
    AddressesOccur(accepted, addr);
    SetupExactlyWhenSeen(accepted, i);
    var setup := First(accepted, addr, true);
    k := if setup < |accepted| then setup else First(accepted, addr, false);
    var j :| 0 <= j < |accepted| && accepted[j].addr == addr;
    assert Fits(accepted[j], addr, false);
    assert forall j :: 0 <= j < k ==> !Fits(accepted[j], addr, setup < |accepted|);
  }

  lemma AddressesExtend(accepted: seq<Candidate>, h: nat)
    requires accepted != [] && h < |Addresses(accepted[..|accepted| - 1])|
    ensures h < |Addresses(accepted)| && Addresses(accepted)[h] == Addresses(accepted[..|accepted| - 1])[h]
  {
  }

  /** The entry at `h` stands for an address seen before `j`. */
  ghost predicate SeenBefore(accepted: seq<Candidate>, j: nat, h: nat)
    requires j <= |accepted| && h < |Addresses(accepted)|
  {
    exists i :: 0 <= i < j && accepted[i].addr == Addresses(accepted)[h]
  }

  lemma SeenStaysSeen(accepted: seq<Candidate>, j: nat, h: nat)
    requires accepted != [] && j < |accepted| && h < |Addresses(accepted[..|accepted| - 1])|
    requires SeenBefore(accepted[..|accepted| - 1], j, h)
    ensures h < |Addresses(accepted)| && SeenBefore(accepted, j, h)
  {
    var front := accepted[..|accepted| - 1];
    AddressesExtend(accepted, h);
    var i :| 0 <= i < j && front[i].addr == Addresses(front)[h];
    assert accepted[i].addr == Addresses(accepted)[h];
  }

  /** Every accepted address has an entry, and the entries stand in the order in which the addresses were first seen. */
  lemma {:induction false} FirstSeenOrder(accepted: seq<Candidate>, j: nat) returns (i: nat)
    requires j < |accepted|
    ensures i < |Addresses(accepted)| && Addresses(accepted)[i] == accepted[j].addr
    ensures forall h :: 0 <= h < i ==> SeenBefore(accepted, j, h)
  {
    var n := |accepted| - 1;
    var front := accepted[..n];
    var earlier := Addresses(front);
    if j < n {
      i := FirstSeenOrder(front, j);
      AddressesExtend(accepted, i);
    } else {
      i := if accepted[j].addr in earlier then IndexOf(earlier, accepted[j].addr) else |earlier|;
      forall h | 0 <= h < i ensures SeenBefore(front, j, h) {
        AddressesOccur(front, earlier[h]);
      }
    }
    forall h | 0 <= h < i ensures SeenBefore(accepted, j, h) {
      SeenStaysSeen(accepted, j, h);
    }
  }

  function IndexOf(addresses: seq<Address>, addr: Address): (i: nat)
    requires addr in addresses
    ensures i < |addresses| && addresses[i] == addr
  {
    if addresses[0] == addr then 0 else 1 + IndexOf(addresses[1..], addr)
  }
}
