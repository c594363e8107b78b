/** The TCP dial (`interleave_families`, `connect_staggered`), after RFC 8305 sections 4 and 5. */
module Dial {
  import opened Limits

  /** A resolved address: its family, and which one it is. */
  datatype Addr = Addr(v6: bool, id: nat)

  // ── Ordering the addresses ─────────────────────────────────────────

  function Family(addrs: seq<Addr>, v6: bool): (r: seq<Addr>)
    ensures |r| <= |addrs|
    ensures forall i | 0 <= i < |r| :: r[i].v6 == v6
  {
    if addrs == [] then []
    else (if addrs[0].v6 == v6 then [addrs[0]] else []) + Family(addrs[1..], v6)
  }

  /** Two sequences alternately, then what is left of the longer. */
  function Zip(lead: seq<Addr>, other: seq<Addr>): (r: seq<Addr>)
    decreases |lead| + |other|
    ensures |r| == |lead| + |other|
  {
    if lead == [] then other
    else if other == [] then lead
    else [lead[0], other[0]] + Zip(lead[1..], other[1..])
  }

  function Interleaved(addrs: seq<Addr>): (r: seq<Addr>) {
    if addrs == [] then []
    else Zip(Family(addrs, addrs[0].v6), Family(addrs, !addrs[0].v6))
  }

  method InterleaveFamilies(addrs: seq<Addr>) returns (ordered: seq<Addr>)
    ensures ordered == Interleaved(addrs)
  {
    ordered := [];
    if addrs == [] {
      return;
    }
    var lead, other := Family(addrs, addrs[0].v6), Family(addrs, !addrs[0].v6);
    while lead != [] || other != []
      invariant Interleaved(addrs) == ordered + Zip(lead, other)
      decreases |lead| + |other|
    {
      if lead != [] {
        ordered := ordered + [lead[0]];
      }
      if other != [] {
        ordered := ordered + [other[0]];
      }
      lead, other := if lead == [] then [] else lead[1..], if other == [] then [] else other[1..];
    }
  }

  lemma {:induction false} FamiliesMake(addrs: seq<Addr>, v6: bool)
    ensures multiset(Family(addrs, v6)) + multiset(Family(addrs, !v6)) == multiset(addrs)
  {
    if addrs != [] {
      assert addrs == [addrs[0]] + addrs[1..];
      FamiliesMake(addrs[1..], v6);
    }
  }

  lemma {:induction false} ZipKeeps(lead: seq<Addr>, other: seq<Addr>)
    ensures multiset(Zip(lead, other)) == multiset(lead) + multiset(other)
    decreases |lead| + |other|
  {
    if lead != [] && other != [] {
      assert lead == [lead[0]] + lead[1..];
      assert other == [other[0]] + other[1..];
      ZipKeeps(lead[1..], other[1..]);
    }
  }

  lemma {:induction false} FamilyOfConcat(a: seq<Addr>, b: seq<Addr>, v6: bool)
    ensures Family(a + b, v6) == Family(a, v6) + Family(b, v6)
  {
    if a == [] {
      assert a + b == b;
    } else {
      assert (a + b)[1..] == a[1..] + b;
      FamilyOfConcat(a[1..], b, v6);
    }
  }

  lemma {:induction false} FamilyOfOne(addrs: seq<Addr>, v6: bool)
    requires forall i | 0 <= i < |addrs| :: addrs[i].v6 == v6
    ensures Family(addrs, v6) == addrs && Family(addrs, !v6) == []
  {
    if addrs != [] {
      FamilyOfOne(addrs[1..], v6);
    }
  }

  lemma FamilyOfPair(a: Addr, b: Addr, v6: bool)
    requires a.v6 == v6 && b.v6 != v6
    ensures Family([a, b], v6) == [a] && Family([a, b], !v6) == [b]
  {
    assert [a, b][1..] == [b];
    assert [b][1..] == [];
  }

  lemma FamilyOfPairAnd(a: Addr, b: Addr, rest: seq<Addr>, v6: bool)
    requires a.v6 == v6 && b.v6 != v6
    ensures Family([a, b] + rest, v6) == [a] + Family(rest, v6)
    ensures Family([a, b] + rest, !v6) == [b] + Family(rest, !v6)
  {
    FamilyOfPair(a, b, v6);
    FamilyOfConcat([a, b], rest, v6);
    FamilyOfConcat([a, b], rest, !v6);
  }

  lemma {:induction false} ZipFamilies(lead: seq<Addr>, other: seq<Addr>, v6: bool)
    requires forall i | 0 <= i < |lead| :: lead[i].v6 == v6
    requires forall i | 0 <= i < |other| :: other[i].v6 != v6
    ensures Family(Zip(lead, other), v6) == lead
    ensures Family(Zip(lead, other), !v6) == other
    decreases |lead| + |other|
  {
    if lead == [] {
      FamilyOfOne(other, !v6);
    } else if other == [] {
      FamilyOfOne(lead, v6);
    } else {
      var ls, os := lead[1..], other[1..];
      assert lead == [lead[0]] + ls && other == [other[0]] + os;
      ZipFamilies(ls, os, v6);
      FamilyOfPairAnd(lead[0], other[0], Zip(ls, os), v6);
    }
  }

  lemma {:induction false} ZipAt(lead: seq<Addr>, other: seq<Addr>, k: nat)
    requires k < |lead| && k < |other|
    ensures Zip(lead, other)[2 * k] == lead[k] && Zip(lead, other)[2 * k + 1] == other[k]
  {
    if k > 0 {
      ZipAt(lead[1..], other[1..], k - 1);
    }
  }

  /** The order keeps every address, and each family in the order the resolver gave it. */
  lemma InterleavingKeeps(addrs: seq<Addr>)
    requires addrs != []
    ensures multiset(Interleaved(addrs)) == multiset(addrs)
    ensures Family(Interleaved(addrs), addrs[0].v6) == Family(addrs, addrs[0].v6)
    ensures Family(Interleaved(addrs), !addrs[0].v6) == Family(addrs, !addrs[0].v6)
  {
    var v6 := addrs[0].v6;
    FamiliesMake(addrs, v6);
    ZipKeeps(Family(addrs, v6), Family(addrs, !v6));
    ZipFamilies(Family(addrs, v6), Family(addrs, !v6), v6);
  }

  /** While both families last they alternate, the first address's leading: so the first address of
      the other family, if there is one, is second. */
  lemma InterleavingAlternates(addrs: seq<Addr>, k: nat)
    requires addrs != []
    ensures
      var ordered, lead, other := Interleaved(addrs), Family(addrs, addrs[0].v6), Family(addrs, !addrs[0].v6);
      && ordered != [] && ordered[0] == addrs[0]
      && (k < |lead| && k < |other| ==>
            2 * k + 1 < |ordered| && ordered[2 * k] == lead[k] && ordered[2 * k + 1] == other[k])
      && (other != [] ==> |ordered| > 1 && ordered[1] == other[0])
  {
    var lead, other := Family(addrs, addrs[0].v6), Family(addrs, !addrs[0].v6);
    if k < |lead| && k < |other| {
      ZipAt(lead, other, k);
    }
    if other != [] {
      ZipAt(lead, other, 0);
    }
  }
}
