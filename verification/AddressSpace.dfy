/** struct mem: one address space with its two-level page table, updated in place. */
module AddressSpace {
  import opened Bytes
  import opened GuestMemory

  const MEM_PGDIR_SIZE: nat := 1024

  function PgdirTop(page: nat): nat { page / MEM_PGDIR_SIZE }
  function PgdirBottom(page: nat): nat { page % MEM_PGDIR_SIZE }

  // A second-level table, null until its first page is mapped; None is a null data pointer.
  datatype PtTable = Null | Table(slots: seq<Option<PtEntry>>)

  class Mem {
    const pgdir: array<PtTable>
    var pgdirUsed: nat
    var changes: nat            // atomic_uint
    var refcount: nat
    ghost var pt: map<nat, PtEntry>
    ghost var total: nat        // changes without the wrap-around

    ghost predicate Valid()
      reads this, pgdir
    {
      && pgdir.Length == MEM_PGDIR_SIZE
      && (forall i | 0 <= i < MEM_PGDIR_SIZE && pgdir[i].Table? :: |pgdir[i].slots| == MEM_PGDIR_SIZE)
      && (forall p <- pt :: p < MEM_PAGES)
      && (forall p | 0 <= p < MEM_PAGES :: Agrees(p))
      && changes == total % COUNTER
    }

    ghost predicate Agrees(p: nat)
      requires p < MEM_PAGES && pgdir.Length == MEM_PGDIR_SIZE
      reads this, pgdir
    {
      var table := pgdir[PgdirTop(p)];
      if table.Null? || PgdirBottom(p) >= |table.slots| || table.slots[PgdirBottom(p)].None? then p !in pt
      else p in pt && pt[p] == table.slots[PgdirBottom(p)].value
    }

    constructor ()
      ensures Valid() && fresh(pgdir)
      ensures pt == map[] && total == 0 && refcount == 1
    {
      pgdir := new PtTable[MEM_PGDIR_SIZE](_ => Null);
      pgdirUsed, changes, refcount := 0, 0, 1;
      pt, total := map[], 0;
    }

    /** mem_pt: the entry of a page, None when it is not mapped. */
    method Pt(page: nat) returns (e: Option<PtEntry>)
      requires Valid() && page < MEM_PAGES
      ensures e == if page in pt then Some(pt[page]) else None
    {
      assert Agrees(page);
      var table := pgdir[PgdirTop(page)];
      if table.Null? {
        return None;
      }
      e := table.slots[PgdirBottom(page)];
    }

    /** mem_pt_new, and the stores through the slot it returns. */
    method SetPt(page: nat, e: PtEntry)
      requires Valid() && page < MEM_PAGES
      modifies this, pgdir
      ensures Valid()
      ensures pt == old(pt)[page := e] && total == old(total) && refcount == old(refcount)
    {
      var i := PgdirTop(page);
      if pgdir[i].Null? {
        pgdir[i] := Table(seq(MEM_PGDIR_SIZE, _ => None));
        pgdirUsed := pgdirUsed + 1;
      }
      pgdir[i] := Table(pgdir[i].slots[PgdirBottom(page) := Some(e)]);
      pt := pt[page := e];
      forall p | 0 <= p < MEM_PAGES ensures Agrees(p) {
        assert old(Agrees(p));
        SamePosition(p, page);
      }
    }

    /** mem_pt_del. */
    method DelPt(page: nat)
      requires Valid() && page < MEM_PAGES
      modifies this, pgdir
      ensures Valid()
      ensures pt == old(pt) - {page} && total == old(total) && refcount == old(refcount)
    {
      assert Agrees(page);
      var i := PgdirTop(page);
      if pgdir[i].Table? {
        pgdir[i] := Table(pgdir[i].slots[PgdirBottom(page) := None]);
        pt := pt - {page};
        forall p | 0 <= p < MEM_PAGES ensures Agrees(p) {
          assert old(Agrees(p));
          SamePosition(p, page);
        }
      }
    }

    /** mem_changed. */
    method Changed()
      requires Valid()
      modifies this
      ensures Valid()
      ensures pt == old(pt) && total == old(total) + 1 && refcount == old(refcount)
    {
      changes := (changes + 1) % COUNTER;
      total := total + 1;
      assert forall p | 0 <= p < MEM_PAGES :: old(Agrees(p)) ==> Agrees(p);
    }
  }

  lemma SamePosition(p: nat, q: nat)
    ensures PgdirTop(p) == PgdirTop(q) && PgdirBottom(p) == PgdirBottom(q) ==> p == q
  {
  }
}
