/** Where the sectors of an extent have been staged, and what follows for a file
    once its sectors are moved there. */
module Tables {
  import opened Sectors
  import opened Wrappers
  import opened Extents
  import opened Disks
  import opened Kernel
  import opened Planning
  import opened Redirect

  /** Every sector in the table is staged in an extent newer than `before`, with
      the bytes it has in extent `x`. */
  ghost predicate GoodTable(before: Disks.Extents, now: Disks.Extents, x: Address, table: Table) {
    x in before && forall e :: e in table ==>
      && Aligned(e)
      && ValidLoc(Loc(x, e), now) && ValidLoc(table[e], now)
      && table[e].extent !in before
      && SameSector(now, Loc(x, e), table[e], SECTORSIZE)
  }

  ghost predicate Injective(table: Table) {
    forall d, e :: d in table && e in table && table[d] == table[e] ==> d == e
  }

  /** Whether the table puts some sector at `l`. */
  ghost predicate Hits(table: Table, l: Loc) {
    exists e :: e in table && table[e] == l
  }

  /** No staged extent holds a sector the table does not account for. */
  ghost predicate Full(now: Disks.Extents, table: Table) {
    forall e, o: nat :: e in table && table[e].extent in now && Aligned(o)
                        && o + SECTORSIZE <= |now[table[e].extent]| ==>
      Hits(table, Loc(table[e].extent, o))
  }

  ghost predicate SoundTable(before: Disks.Extents, now: Disks.Extents, x: Address, table: Table) {
    GoodTable(before, now, x, table) && Injective(table) && Full(now, table)
  }

  lemma GoodTableGrows(before: Disks.Extents, now: Disks.Extents, later: Disks.Extents, x: Address, table: Table)
    requires GoodTable(before, now, x, table) && ExtentsGrow(now, later)
    ensures GoodTable(before, later, x, table)
  {
    forall e | e in table
      ensures ValidLoc(Loc(x, e), later) && ValidLoc(table[e], later)
      ensures SameSector(later, Loc(x, e), table[e], SECTORSIZE)
    {
      SameSectorGrows(now, later, Loc(x, e), table[e], SECTORSIZE);
    }
  }

  lemma SoundTableGrows(before: Disks.Extents, now: Disks.Extents, later: Disks.Extents, x: Address, table: Table)
    requires SoundTable(before, now, x, table) && ExtentsGrow(now, later)
    ensures SoundTable(before, later, x, table)
  {
    GoodTableGrows(before, now, later, x, table);
    forall e, o: nat | e in table && table[e].extent in later && Aligned(o)
                       && o + SECTORSIZE <= |later[table[e].extent]|
      ensures Hits(table, Loc(table[e].extent, o))
    {
      assert table[e].extent in now;
    }
  }

  lemma CopySector(now: Disks.Extents, x: Address, copy: LiveRange, a: Address, e: nat)
    requires x in now && a in now && ValidCopy(copy, now[x]) && now[a] == copy.bytes
    requires e in CopyTable(copy, a)
    ensures ValidLoc(Loc(x, e), now) && ValidLoc(Loc(a, e - copy.start), now)
    ensures SameSector(now, Loc(x, e), Loc(a, e - copy.start), SECTORSIZE)
  {
    AlignedStep(e, copy.end);
    AlignedDifference(copy.start, e);
    forall i: nat | i < SECTORSIZE
      ensures At(now, Loc(x, e), i) == At(now, Loc(a, e - copy.start), i)
    {
      SameByCopy(now, copy, a, x, e, i);
    }
  }

  lemma CopyTableGood(before: Disks.Extents, now: Disks.Extents, x: Address, copy: LiveRange, a: Address)
    requires x in before && x in now && a in now && a !in before
    requires ValidCopy(copy, now[x]) && now[a] == copy.bytes
    ensures GoodTable(before, now, x, CopyTable(copy, a))
  {
    forall e | e in CopyTable(copy, a)
      ensures ValidLoc(Loc(x, e), now) && ValidLoc(CopyTable(copy, a)[e], now)
      ensures SameSector(now, Loc(x, e), CopyTable(copy, a)[e], SECTORSIZE)
    {
      CopySector(now, x, copy, a, e);
    }
  }

  lemma CopyTableHits(content: seq<Byte>, copy: LiveRange, a: Address, o: nat)
    requires ValidCopy(copy, content) && Aligned(o) && o + SECTORSIZE <= |copy.bytes|
    ensures Hits(CopyTable(copy, a), Loc(a, o))
  {
    AlignedSum(copy.start, o);
    CopyTableAt(copy, a, copy.start + o);
  }

  lemma CopyTableAt(copy: LiveRange, a: Address, e: nat)
    requires copy.start <= e < copy.end && Aligned(e)
    ensures e in CopyTable(copy, a) && CopyTable(copy, a)[e] == Loc(a, e - copy.start)
  {
  }

  lemma HitsEither(first: Table, second: Table, l: Loc)
    requires first.Keys !! second.Keys && (Hits(first, l) || Hits(second, l))
    ensures Hits(first + second, l)
  {
    var both := first + second;
    if Hits(first, l) {
      var e :| e in first && first[e] == l;
      assert both[e] == l;
    } else {
      var e :| e in second && second[e] == l;
      assert both[e] == l;
    }
  }

  lemma FullAdds(now: Disks.Extents, later: Disks.Extents, x: Address, table: Table, copy: LiveRange, a: Address)
    requires Full(now, table) && forall e :: e in table ==> table[e].extent in now
    requires a !in now && later == now[a := copy.bytes]
    requires x in now && ValidCopy(copy, now[x])
    requires table.Keys !! CopyTable(copy, a).Keys
    ensures Full(later, table + CopyTable(copy, a))
  {
    var added := CopyTable(copy, a);
    var all := table + added;
    forall e, o: nat | e in all && all[e].extent in later && Aligned(o) && o + SECTORSIZE <= |later[all[e].extent]|
      ensures Hits(all, Loc(all[e].extent, o))
    {
      if e in added {
        CopyTableHits(now[x], copy, a, o);
      }
      HitsEither(table, added, Loc(all[e].extent, o));
    }
  }

  lemma InjectiveAdds(now: Disks.Extents, table: Table, copy: LiveRange, a: Address)
    requires Injective(table) && a !in now && forall e :: e in table ==> table[e].extent in now
    ensures Injective(table + CopyTable(copy, a))
  {
  }

  lemma GoodAdds(before: Disks.Extents, now: Disks.Extents, x: Address, first: Table, second: Table)
    requires GoodTable(before, now, x, first) && GoodTable(before, now, x, second)
    ensures GoodTable(before, now, x, first + second)
  {
  }

  /** Staging one more copy keeps the table sound. */
  lemma SoundTableAdds(before: Disks.Extents, now: Disks.Extents, later: Disks.Extents, x: Address, table: Table,
                       copy: LiveRange, a: Address)
    requires SoundTable(before, now, x, table)
    requires ExtentsGrow(before, now) && a !in now && later == now[a := copy.bytes]
    requires x in now && ValidCopy(copy, now[x])
    requires table.Keys !! CopyTable(copy, a).Keys
    ensures SoundTable(before, later, x, table + CopyTable(copy, a))
  {
    GoodTableGrows(before, now, later, x, table);
    CopyTableGood(before, later, x, copy, a);
    GoodAdds(before, later, x, table, CopyTable(copy, a));
    FullAdds(now, later, x, table, copy, a);
    InjectiveAdds(now, table, copy, a);
  }

  /** Moving to one table and then another is moving to both. */
  lemma RelocatedCompose(f: FileState, g: FileState, h: FileState, x: Address, first: Table, second: Table,
      complete: bool)
    requires Relocated(f, g, x, first, complete) && Relocated(g, h, x, second, complete)
    requires first.Keys !! second.Keys
    requires forall e :: e in first ==> first[e].extent != x
    ensures Relocated(f, h, x, first + second, complete)
  {
    var both := first + second;
    forall s: nat | s in f.sectors
      ensures h.sectors[s] == f.sectors[s] || (Eligible(f, x, both, s) && h.sectors[s] == both[f.sectors[s].offset])
      ensures complete && Eligible(f, x, both, s) ==> h.sectors[s] == both[f.sectors[s].offset]
    {
      if g.sectors[s] != f.sectors[s] {
        assert Eligible(f, x, first, s) && !Eligible(g, x, second, s);
      } else {
        assert Eligible(g, x, second, s) <==> Eligible(f, x, second, s);
        assert complete ==> !Eligible(f, x, first, s);
      }
    }
  }

  lemma RelocatedWeaker(f: FileState, g: FileState, x: Address, table: Table, wider: Table)
    requires Relocated(f, g, x, table, false)
    requires forall e :: e in table ==> e in wider && wider[e] == table[e]
    ensures Relocated(f, g, x, wider, false)
  {
  }
}
