/**
 The simple routing table: a list kept sorted by prefix length and scanned from the
 front. It is the repository's own reference for the two-level table.
 */
module DummyTables {
  import opened Bits
  import opened Routes
  import opened PointerLists

  /** The prefix length is stored as given; nothing clamps or masks it. */
  datatype Entry = Entry(addr: Word32, cidr: Byte, nextHop: NextHop)

  /** The subnet mask: INT_MIN shifted right, keeping the sign, by cidr - 1 places. For a
      cidr of 0 or above 32 C leaves the shift undefined; its value is `undef`. */
  function Mask(cidr: Byte, undef: Byte -> Word32): Word32 {
    if 1 <= cidr <= 32 then (-0x8000_0000 / Pow2(cidr - 1)) % 0x1_0000_0000
    else undef(cidr)
  }

  predicate Matches(e: Entry, ip: Word32, undef: Byte -> Word32) {
    And(ip, Mask(e.cidr, undef)) == e.addr
  }

  lemma MaskIsPrefix(cidr: Byte, undef: Byte -> Word32)
    requires 1 <= cidr <= 32
    ensures Pow2(32 - cidr) <= 0x8000_0000
    ensures Mask(cidr, undef) == 0x1_0000_0000 - Pow2(32 - cidr)
  {
    Pow2Values();
    Pow2Monotone(32 - cidr, 31);
    Pow2Add(cidr - 1, 32 - cidr);
    hide Pow2;
    MaskArithmetic(Pow2(cidr - 1), Pow2(32 - cidr));
  }

  lemma MaskArithmetic(d: int, e: int)
    requires d >= 1 && 1 <= e <= 0x8000_0000 && d * e == 0x8000_0000
    ensures (-0x8000_0000 / d) % 0x1_0000_0000 == 0x1_0000_0000 - e
  {
    assert d * (-e) == -(d * e);
    QuotientUnique(-0x8000_0000, d, -e, 0);
    QuotientUnique(-e, 0x1_0000_0000, -1, 0x1_0000_0000 - e);
  }

  /** Matching is covering, for an entry whose host bits are zero. */
  lemma MatchesIsCovers(e: Entry, ip: Word32, undef: Byte -> Word32)
    requires 1 <= e.cidr <= 32
    ensures Matches(e, ip, undef) <==>
            Covers(Route(e.addr, e.cidr, e.nextHop), ip) && e.addr % Pow2(32 - e.cidr) == 0
  {
    var d := Pow2(32 - e.cidr);
    MaskIsPrefix(e.cidr, undef);
    Pow2Values();
    AndHighMask(ip, 32 - e.cidr, 32);
    hide And, Mask, Pow2;
    FloorIsCovered(ip, e.addr, d);
  }

  lemma FloorIsCovered(x: nat, y: nat, d: nat)
    requires d >= 1
    ensures x - x % d == y <==> x / d == y / d && y % d == 0
  {
    if x - x % d == y {
      QuotientUnique(y, d, x / d, 0);
    }
  }

  /** Entry a comes before entry b in the list: longer prefix, or added earlier. */
  ghost predicate Precedes(added: seq<Entry>, a: nat, b: nat)
    requires a < |added| && b < |added|
  {
    added[a].cidr > added[b].cidr || (added[a].cidr == added[b].cidr && a < b)
  }

  /** The matching entry that precedes every other matching one. */
  ghost predicate FirstMatch(added: seq<Entry>, ip: Word32, undef: Byte -> Word32, i: nat) {
    && i < |added|
    && Matches(added[i], ip, undef)
    && forall j :: 0 <= j < |added| && Matches(added[j], ip, undef) && j != i ==> Precedes(added, i, j)
  }

  /** The list positions, as indexes of the entries in the order they were added. */
  ghost predicate SortedOrder(added: seq<Entry>, order: seq<nat>) {
    && |order| == |added|
    && (forall k :: 0 <= k < |order| ==> order[k] < |added|)
    && (forall k, l :: 0 <= k < l < |order| ==> Precedes(added, order[k], order[l]))
    && (forall i :: 0 <= i < |added| ==> i in order)
  }

  /** Inserting before the first shorter prefix keeps the order. */
  lemma InsertKeepsOrder(added: seq<Entry>, order: seq<nat>, e: Entry, pos: nat)
    requires SortedOrder(added, order) && pos <= |order|
    requires forall k :: 0 <= k < pos ==> added[order[k]].cidr >= e.cidr
    requires pos < |order| ==> added[order[pos]].cidr < e.cidr
    ensures SortedOrder(added + [e], order[..pos] + [|added|] + order[pos..])
  {
    InsertKeepsAll(added, order, pos);
    var added', order' := added + [e], order[..pos] + [|added|] + order[pos..];
    forall k, l | 0 <= k < l < |order'| ensures Precedes(added', order'[k], order'[l]) {
      var k', l' := if k < pos then k else k - 1, if l < pos then l else l - 1;
      if k != pos && l != pos {
        assert Precedes(added, order[k'], order[l']);
      } else if k == pos && l' > pos {
        assert Precedes(added, order[pos], order[l']);
      }
    }
  }

  lemma InsertKeepsAll(added: seq<Entry>, order: seq<nat>, pos: nat)
    requires SortedOrder(added, order) && pos <= |order|
    ensures forall i :: 0 <= i <= |added| ==> i in order[..pos] + [|added|] + order[pos..]
  {
    var order' := order[..pos] + [|added|] + order[pos..];
    forall i | 0 <= i <= |added| ensures i in order' {
      if i < |added| {
        assert i in order;
        var k :| 0 <= k < |order| && order[k] == i;
        assert order'[if k < pos then k else k + 1] == i;
      } else {
        assert order'[pos] == i;
      }
    }
  }

  /** The list holds the entries in this order. */
  ghost predicate Lists(contents: seq<Option<Entry>>, added: seq<Entry>, order: seq<nat>) {
    && |contents| == |order| && (forall k :: 0 <= k < |order| ==> order[k] < |added|)
    && forall k :: 0 <= k < |order| ==> contents[k] == Some(added[order[k]])
  }

  lemma InsertLists(contents: seq<Option<Entry>>, added: seq<Entry>, order: seq<nat>, e: Entry, pos: nat)
    requires Lists(contents, added, order) && pos <= |order|
    ensures Lists(contents[..pos] + [Some(e)] + contents[pos..], added + [e], order[..pos] + [|added|] + order[pos..])
  {
  }

  class DummyTable {
    const rtEnts: PointerList<Option<Entry>>

    ghost var added: seq<Entry>
    ghost var order: seq<nat>

    ghost predicate Valid()
      reads this, rtEnts, rtEnts.list
    {
      && rtEnts.Valid()
      && SortedOrder(added, order)
      && Lists(rtEnts.Contents(), added, order)
    }

    constructor ()
      ensures Valid() && added == [] && fresh(rtEnts) && fresh(rtEnts.list) && rtEnts.cap == 0
    {
      rtEnts := new PointerList<Option<Entry>>(None, false);
      added, order := [], [];
    }

    /** The first position whose prefix is shorter, or the end. */
    method PositionFor(cidr: Byte) returns (i: Word32)
      requires Valid()
      ensures i <= |order|
      ensures forall k :: 0 <= k < i ==> added[order[k]].cidr >= cidr
      ensures i < |order| ==> added[order[i]].cidr < cidr
    {
      var sz := rtEnts.len;
      i := 0;
      while i < sz
        invariant 0 <= i <= sz
        invariant forall k :: 0 <= k < i ==> added[order[k]].cidr >= cidr
      {
        var ent := rtEnts.Get(i);
        if ent.value.cidr < cidr {
          break;
        }
        i := i + 1;
      }
    }

    /** Fails, where the program exits, only when the list cannot grow. */
    method AddRoute(addr: Word32, cidr: Byte, nextHop: NextHop) returns (ok: bool)
      requires Valid()
      modifies this, rtEnts, rtEnts.list
      ensures ok ==> Valid() && added == old(added) + [Entry(addr, cidr, nextHop)]
      ensures ok ==> rtEnts.list == old(rtEnts.list) || fresh(rtEnts.list)
      ensures |old(added)| < 0x8000_0000 ==> ok
    {
      var i := PositionFor(cidr);
      var res := Entry(addr, cidr, nextHop);
      InsertKeepsOrder(added, order, res, i);
      InsertLists(rtEnts.Contents(), added, order, res, i);
      SameLength(rtEnts.Contents(), added, order);
      hide Lists, SortedOrder;
      ok := rtEnts.Insert(Some(res), i);
      if ok {
        order := order[..i] + [|added|] + order[i..];
        added := added + [res];
      }
    }

    lemma SameLength(contents: seq<Option<Entry>>, added: seq<Entry>, order: seq<nat>)
      requires Lists(contents, added, order) && SortedOrder(added, order)
      ensures |contents| == |order| == |added|
    {
    }

    lemma FirstInOrder(ip: Word32, undef: Byte -> Word32, i: nat)
      requires SortedOrder(added, order) && i < |order| && Matches(added[order[i]], ip, undef)
      requires forall k :: 0 <= k < i ==> !Matches(added[order[k]], ip, undef)
      ensures FirstMatch(added, ip, undef, order[i])
    {
      hide Matches;
      forall j | 0 <= j < |added| && Matches(added[j], ip, undef) && j != order[i]
        ensures Precedes(added, order[i], j)
      {
        assert j in order;
      }
    }

    /** The first match in the list is the longest match, the earliest added among equals. */
    method GetNextHop(ip: Word32, undef: Byte -> Word32) returns (ent: Option<Entry>)
      requires Valid()
      ensures ent.None? ==> forall i :: 0 <= i < |added| ==> !Matches(added[i], ip, undef)
      ensures ent.Some? ==> exists i: nat :: FirstMatch(added, ip, undef, i) && ent.value == added[i]
    {
      hide Matches;
      var sz := rtEnts.len;
      for i := 0 to sz
        invariant forall k :: 0 <= k < i ==> !Matches(added[order[k]], ip, undef)
      {
        ent := rtEnts.Get(i);
        if Matches(ent.value, ip, undef) {
          FirstInOrder(ip, undef, i);
          return;
        }
      }
      ent := None;
      forall i | 0 <= i < |added| ensures !Matches(added[i], ip, undef) {
        assert i in order;
      }
    }
  }
}
