/**
 * CopyOnWritePtr<T>: a wrapper around one std::shared_ptr<T> member `data_`.
 * The heap holds the shared cells (a T value together with the use count
 * kept by shared_ptr's control block) and the CopyOnWritePtr variables that
 * are alive, each holding null or the address of a cell. A cell is freed
 * when its last holder lets go of it, as shared_ptr does.
 */
module CopyOnWrite {
  import opened Optional
  import opened Counting

  type CellId = nat    // address of a T managed by a shared_ptr
  type HolderId = nat  // a CopyOnWritePtr variable

  /** A T object under shared ownership and its `use_count()`. */
  datatype Cell<T> = Cell(value: T, uses: nat)

  /** One more shared_ptr refers to `t`'s cell (nothing happens for null). */
  function Acquired<T>(cells: map<CellId, Cell<T>>, t: Option<CellId>): (r: map<CellId, Cell<T>>)
    requires t.Some? ==> t.value in cells
    ensures r.Keys == cells.Keys
    ensures forall c :: c in cells ==> r[c].value == cells[c].value
    ensures forall c :: c in cells ==> r[c].uses == cells[c].uses + (if t == Some(c) then 1 else 0)
  {
    if t.None? then cells
    else cells[t.value := cells[t.value].(uses := cells[t.value].uses + 1)]
  }

  /** One shared_ptr lets go of `t`'s cell; the last one frees it. */
  function Released<T>(cells: map<CellId, Cell<T>>, t: Option<CellId>): (r: map<CellId, Cell<T>>)
    requires t.Some? ==> t.value in cells
    ensures t.Some? && cells[t.value].uses <= 1 ==> r.Keys == cells.Keys - {t.value}
    ensures t.None? || cells[t.value].uses > 1 ==> r.Keys == cells.Keys
    ensures forall c :: c in r ==> r[c].value == cells[c].value
    ensures forall c :: c in r ==> r[c].uses == cells[c].uses - (if t == Some(c) then 1 else 0)
  {
    if t.None? then cells
    else if cells[t.value].uses <= 1 then cells - {t.value}
    else cells[t.value := cells[t.value].(uses := cells[t.value].uses - 1)]
  }

  /**
   * The ownership invariant: no holder refers to a freed cell, and every
   * cell's use count is its (positive) number of holders.
   */
  ghost predicate CowOk<T>(cells: map<CellId, Cell<T>>, holders: map<HolderId, Option<CellId>>, next: nat)
  {
    && Below(cells.Keys, next) && Below(holders.Keys, next)
    && (forall q :: q in holders && holders[q].Some? ==> holders[q].value in cells)
    && (forall c :: c in cells ==> cells[c].uses == Count(holders, Some(c)) && cells[c].uses >= 1)
  }

  /** What holder `q` sees through GetImmut: null, or the value of its cell. */
  ghost function ViewOf<T>(cells: map<CellId, Cell<T>>, holders: map<HolderId, Option<CellId>>, q: HolderId): Option<T>
  {
    if q in holders && holders[q].Some? && holders[q].value in cells then Some(cells[holders[q].value].value)
    else None
  }

  /** A new holder at the fresh address `next`, sharing `t`, keeps the invariant. */
  lemma {:induction false} InsertKeepsInvariant<T>(cells: map<CellId, Cell<T>>, holders: map<HolderId, Option<CellId>>,
                                                   next: nat, t: Option<CellId>)
    requires CowOk(cells, holders, next)
    requires t.Some? ==> t.value in cells
    ensures CowOk(Acquired(cells, t), holders[next := t], next + 1)
  {
    var cells' := Acquired(cells, t);
    var holders' := holders[next := t];
    CountInsert(holders, next, t);
    forall c | c in cells' ensures cells'[c].uses == Count(holders', Some(c)) && cells'[c].uses >= 1 {
      assert cells[c].uses == Count(holders, Some(c));
    }
  }

  /** A fresh cell at `next` with its one holder at `next + 1` keeps the invariant. */
  lemma {:induction false} MakeKeepsInvariant<T>(cells: map<CellId, Cell<T>>, holders: map<HolderId, Option<CellId>>,
                                                 next: nat, v: T)
    requires CowOk(cells, holders, next)
    ensures CowOk(cells[next := Cell(v, 1)], holders[next + 1 := Some(next)], next + 2)
  {
    var cells' := cells[next := Cell(v, 1)];
    var p: HolderId, t: Option<CellId> := next + 1, Some(next);
    var holders' := holders[p := t];
    forall k | k in holders ensures holders[k] != Some(next) {
      if holders[k].Some? {
        assert holders[k].value in cells;
      }
    }
    CountZero(holders, t);
    CountInsert(holders, p, t);
    forall c | c in cells' ensures cells'[c].uses == Count(holders', Some(c)) && cells'[c].uses >= 1 {
      if c != next {
        assert cells[c].uses == Count(holders, Some(c));
      }
    }
  }

  /**
   * Holder `p` lets go of its cell and takes `t` instead (copy assignment):
   * `t` is acquired before the old cell is released, so the invariant holds,
   * self-assignment included.
   */
  lemma {:induction false} RebindKeepsInvariant<T>(cells: map<CellId, Cell<T>>, holders: map<HolderId, Option<CellId>>,
                                                   next: nat, p: HolderId, t: Option<CellId>)
    requires CowOk(cells, holders, next)
    requires p in holders && (t.Some? ==> t.value in cells)
    ensures CowOk(Released(Acquired(cells, t), holders[p]), holders[p := t], next)
  {
    RebindKeepsHoldersLive(cells, holders, next, p, t);
    RebindKeepsUseCounts(cells, holders, next, p, t);
  }

  /** After copy assignment, every holder's cell is still allocated. */
  lemma {:induction false} RebindKeepsHoldersLive<T>(cells: map<CellId, Cell<T>>, holders: map<HolderId, Option<CellId>>,
                                                     next: nat, p: HolderId, t: Option<CellId>)
    requires CowOk(cells, holders, next)
    requires p in holders && (t.Some? ==> t.value in cells)
    ensures var cells', holders' := Released(Acquired(cells, t), holders[p]), holders[p := t];
            forall q :: q in holders' && holders'[q].Some? ==> holders'[q].value in cells'
  {
    var cells' := Released(Acquired(cells, t), holders[p]);
    var holders' := holders[p := t];
    CountUpdate(holders, p, t);
    forall q | q in holders' && holders'[q].Some? ensures holders'[q].value in cells' {
      var c := holders'[q].value;
      CountPositive(holders', q);
      assert cells[c].uses == Count(holders, Some(c));
    }
  }

  /** After copy assignment, every remaining cell's use count is its positive number of holders. */
  lemma {:induction false} RebindKeepsUseCounts<T>(cells: map<CellId, Cell<T>>, holders: map<HolderId, Option<CellId>>,
                                                   next: nat, p: HolderId, t: Option<CellId>)
    requires CowOk(cells, holders, next)
    requires p in holders && (t.Some? ==> t.value in cells)
    ensures var cells', holders' := Released(Acquired(cells, t), holders[p]), holders[p := t];
            forall c :: c in cells' ==> cells'[c].uses == Count(holders', Some(c)) && cells'[c].uses >= 1
  {
    var cells' := Released(Acquired(cells, t), holders[p]);
    var holders' := holders[p := t];
    CountUpdate(holders, p, t);
    forall c | c in cells' ensures cells'[c].uses == Count(holders', Some(c)) && cells'[c].uses >= 1 {
      assert cells[c].uses == Count(holders, Some(c));
    }
  }

  /** Removing holder `p` (its destructor) keeps the invariant. */
  lemma {:induction false} RemoveKeepsInvariant<T>(cells: map<CellId, Cell<T>>, holders: map<HolderId, Option<CellId>>,
                                                   next: nat, p: HolderId)
    requires CowOk(cells, holders, next)
    requires p in holders
    ensures CowOk(Released(cells, holders[p]), holders - {p}, next)
  {
    var cells' := Released(cells, holders[p]);
    var holders' := holders - {p};
    CountRemove(holders, p);
    forall q | q in holders' && holders'[q].Some? ensures holders'[q].value in cells' {
      var c := holders'[q].value;
      CountPositive(holders', q);
      assert cells[c].uses == Count(holders, Some(c));
    }
    forall c | c in cells' ensures cells'[c].uses == Count(holders', Some(c)) && cells'[c].uses >= 1 {
      assert cells[c].uses == Count(holders, Some(c));
    }
  }

  /**
   * detach on a shared cell: `p` moves to a fresh copy at `next` with use
   * count 1 and the old cell keeps its other holders.
   */
  lemma {:induction false} DetachKeepsInvariant<T>(cells: map<CellId, Cell<T>>, holders: map<HolderId, Option<CellId>>,
                                                   next: nat, p: HolderId)
    requires CowOk(cells, holders, next)
    requires p in holders && holders[p].Some? && cells[holders[p].value].uses > 1
    ensures var c := holders[p].value;
            CowOk(cells[next := Cell(cells[c].value, 1)][c := cells[c].(uses := cells[c].uses - 1)],
                  holders[p := Some(next)], next + 1)
  {
    var c := holders[p].value;
    var cells' := cells[next := Cell(cells[c].value, 1)][c := cells[c].(uses := cells[c].uses - 1)];
    var holders' := holders[p := Some(next)];
    CountZero(holders, Some(next));
    CountUpdate(holders, p, Some(next));
    forall d | d in cells' ensures cells'[d].uses == Count(holders', Some(d)) && cells'[d].uses >= 1 {
      if d != next {
        assert cells[d].uses == Count(holders, Some(d));
      }
    }
  }

  /**
   * Writing to a cell that only holder `p` refers to changes what `p` sees
   * and nothing that any other holder sees.
   */
  lemma {:induction false} SoleHolderWriteIsPrivate<T>(cells: map<CellId, Cell<T>>, holders: map<HolderId, Option<CellId>>,
                                                       next: nat, p: HolderId, v: T)
    requires CowOk(cells, holders, next)
    requires p in holders && holders[p].Some? && cells[holders[p].value].uses == 1
    ensures var c := holders[p].value;
            var cells' := cells[c := cells[c].(value := v)];
            && ViewOf(cells', holders, p) == Some(v)
            && forall q :: q != p ==> ViewOf(cells', holders, q) == ViewOf(cells, holders, q)
  {
    var c := holders[p].value;
    CountOne(holders, p);
    var cells' := cells[c := cells[c].(value := v)];
    forall q | q != p ensures ViewOf(cells', holders, q) == ViewOf(cells, holders, q) {
      if q in holders && holders[q].Some? {
        assert holders[q] != holders[p];
      }
    }
  }

  /** A holder's cell is shared with no other holder iff its use count is 1. */
  lemma {:induction false} UseCountOneIsSoleHolder<T>(cells: map<CellId, Cell<T>>, holders: map<HolderId, Option<CellId>>,
                                                      next: nat, p: HolderId)
    requires CowOk(cells, holders, next)
    requires p in holders && holders[p].Some?
    ensures cells[holders[p].value].uses == 1 <==> forall q :: q in holders && holders[q] == holders[p] ==> q == p
  {
    CountOne(holders, p);
  }

  /** The live cells and CopyOnWritePtr variables of one program. */
  class CowHeap<T> {
    var cells: map<CellId, Cell<T>>
    var holders: map<HolderId, Option<CellId>>
    var next: nat

    ghost predicate Valid()
      reads this
    {
      CowOk(cells, holders, next)
    }

    /** What holder `q` sees. */
    ghost function View(q: HolderId): Option<T>
      reads this
    {
      ViewOf(cells, holders, q)
    }

    constructor()
      ensures Valid()
      ensures cells == map[] && holders == map[]
    {
      cells := map[];
      holders := map[];
      next := 0;
    }

    /** The default constructor: `data_` is a null shared_ptr. */
    method Default() returns (p: HolderId)
      requires Valid()
      modifies this
      ensures Valid()
      ensures p !in old(holders) && holders == old(holders)[p := None]
      ensures cells == old(cells)
    {
      InsertKeepsInvariant(cells, holders, next, None);
      p := next;
      holders := holders[p := None];
      next := next + 1;
    }

    /** The copy constructor: share `src`'s cell, one more use. */
    method CopyOf(src: HolderId) returns (p: HolderId)
      requires Valid() && src in holders
      modifies this
      ensures Valid()
      ensures p !in old(holders) && holders == old(holders)[p := old(holders[src])]
      ensures cells == Acquired(old(cells), old(holders[src]))
    {
      var t := holders[src];
      InsertKeepsInvariant(cells, holders, next, t);
      cells := Acquired(cells, t);
      p := next;
      holders := holders[p := t];
      next := next + 1;
    }

    /** The variadic constructor: `make_shared<T>(ts...)`, built here as `v`. */
    method Make(v: T) returns (p: HolderId)
      requires Valid()
      modifies this
      ensures Valid()
      ensures p !in old(holders) && p in holders && holders[p].Some?
      ensures holders == old(holders)[p := holders[p]]
      ensures holders[p].value !in old(cells) && cells == old(cells)[holders[p].value := Cell(v, 1)]
    {
      MakeKeepsInvariant(cells, holders, next, v);
      var c := next;
      cells := cells[c := Cell(v, 1)];
      p := next + 1;
      holders := holders[p := Some(c)];
      next := next + 2;
    }

    /** Copy assignment: `dst` shares `src`'s cell and lets go of its own. */
    method Assign(dst: HolderId, src: HolderId)
      requires Valid() && dst in holders && src in holders
      modifies this
      ensures Valid()
      ensures holders == old(holders)[dst := old(holders[src])]
      ensures cells == Released(Acquired(old(cells), old(holders[src])), old(holders[dst]))
    {
      var t := holders[src];
      RebindKeepsInvariant(cells, holders, next, dst, t);
      cells := Released(Acquired(cells, t), holders[dst]);
      holders := holders[dst := t];
    }

    /** The destructor: `data_` lets go of its cell. */
    method Destroy(p: HolderId)
      requires Valid() && p in holders
      modifies this
      ensures Valid()
      ensures holders == old(holders) - {p}
      ensures cells == Released(old(cells), old(holders[p]))
    {
      RemoveKeepsInvariant(cells, holders, next, p);
      cells := Released(cells, holders[p]);
      holders := holders - {p};
    }

    /** GetImmut: the address held, or null; nothing changes. */
    method GetImmut(p: HolderId) returns (r: Option<CellId>)
      requires Valid() && p in holders
      ensures r == holders[p]
      ensures r.Some? <==> View(p).Some?
      ensures r.Some? ==> r.value in cells && View(p) == Some(cells[r.value].value)
    {
      r := holders[p];
    }

    /**
     * detach: when `data_` is non-null and shared, replace it by a fresh copy
     * of the value; otherwise change nothing.
     */
    method Detach(p: HolderId)
      requires Valid() && p in holders
      modifies this
      ensures Valid() && holders.Keys == old(holders).Keys
      ensures old(holders[p]).Some? && old(cells[holders[p].value].uses) > 1 ==>
                var c := old(holders[p].value);
                && holders[p].Some? && holders[p].value !in old(cells)
                && holders == old(holders)[p := holders[p]]
                && cells == old(cells)[holders[p].value := Cell(old(cells[c].value), 1)][c := old(cells[c]).(uses := old(cells[c].uses) - 1)]
      ensures old(holders[p]).None? || old(cells[holders[p].value].uses) <= 1 ==>
                holders == old(holders) && cells == old(cells)
    {
      if holders[p].Some? && cells[holders[p].value].uses > 1 {
        var c := holders[p].value;
        DetachKeepsInvariant(cells, holders, next, p);
        var d := next;
        cells := cells[d := Cell(cells[c].value, 1)][c := cells[c].(uses := cells[c].uses - 1)];
        holders := holders[p := Some(d)];
        next := next + 1;
      }
    }

    /**
     * GetMut: detach, then hand out the address held. Afterwards `p` is the
     * only holder of its cell, every holder (`p` included) sees what it saw
     * before, and no other holder changed cell.
     */
    method GetMut(p: HolderId) returns (r: Option<CellId>)
      requires Valid() && p in holders
      modifies this
      ensures Valid()
      ensures holders.Keys == old(holders).Keys
      ensures r == holders[p] && (r.None? <==> old(holders[p]).None?)
      ensures r.Some? ==> cells[r.value].uses == 1
      ensures r.Some? ==> forall q :: q in holders && holders[q] == r ==> q == p
      ensures forall q :: q in holders && q != p ==> holders[q] == old(holders[q])
      ensures forall q :: View(q) == old(View(q))
      ensures old(holders[p]).None? || old(cells[holders[p].value].uses) <= 1 ==>
                holders == old(holders) && cells == old(cells)
      ensures old(holders[p]).Some? && old(cells[holders[p].value].uses) > 1 ==>
                var c := old(holders[p].value);
                && r.Some? && r.value !in old(cells)
                && c in cells && cells[c].value == old(cells[c].value)
                && cells[c].uses == old(cells[c].uses) - 1
    {
      ghost var before := holders;
      Detach(p);
      r := holders[p];
      if r.Some? {
        UseCountOneIsSoleHolder(cells, holders, next, p);
      }
      forall q ensures View(q) == old(View(q)) {
        if q in before && before[q].Some? && q != p {
          assert holders[q] == before[q];
        }
      }
    }

    /** A write through the `T*` that GetMut returned. */
    method Store(c: CellId, v: T)
      requires Valid() && c in cells
      modifies this
      ensures Valid()
      ensures cells == old(cells)[c := old(cells[c]).(value := v)]
      ensures holders == old(holders)
    {
      cells := cells[c := cells[c].(value := v)];
    }

    /**
     * `*p.GetMut() = v`, when `p` is non-null: afterwards `p` sees `v` and every
     * other holder still sees what it saw before.
     */
    method WriteMut(p: HolderId, v: T)
      requires Valid() && p in holders
      modifies this
      ensures Valid()
      ensures View(p) == if old(holders[p]).Some? then Some(v) else None
      ensures forall q :: q != p ==> View(q) == old(View(q))
    {
      var r := GetMut(p);
      if r.Some? {
        SoleHolderWriteIsPrivate(cells, holders, next, p, v);
        Store(r.value, v);
      }
    }
  }

  /**
   * The C++ `main`: t0 default-constructed, t1 copied from it, both read
   * with GetImmut, t0 read with GetMut and t1 with GetImmut, then t2
   * default-constructed. Every read is null and nothing is allocated.
   */
  method CowMain() returns (t0Immut: Option<CellId>, t1Immut: Option<CellId>, t0Mut: Option<CellId>,
                            t1Again: Option<CellId>, cellsLeft: nat)
    ensures t0Immut == None && t1Immut == None && t0Mut == None && t1Again == None
    ensures cellsLeft == 0
  {
    var h := new CowHeap<string>();
    var t0 := h.Default();
    var t1 := h.CopyOf(t0);
    t0Immut := h.GetImmut(t0);
    t1Immut := h.GetImmut(t1);
    t0Mut := h.GetMut(t0);
    t1Again := h.GetImmut(t1);
    var t2 := h.Default();
    h.Destroy(t2);
    h.Destroy(t1);
    h.Destroy(t0);
    cellsLeft := |h.cells|;
  }

  /**
   * A copy holds the same cell as its original: both GetImmut calls return
   * the same address, and reading it again returns it again.
   */
  method CopiesShareAddress(v: int) returns (ra: Option<CellId>, rb: Option<CellId>, again: Option<CellId>)
    ensures ra.Some? && ra == rb && again == ra
  {
    var h := new CowHeap<int>();
    var a := h.Make(v);
    var b := h.CopyOf(a);
    ra := h.GetImmut(a);
    rb := h.GetImmut(b);
    again := h.GetImmut(a);
  }

  /**
   * Two holders of one value: a write through the second's GetMut leaves the
   * first seeing the original value, and the second sees the new one.
   */
  method CopyThenWrite(v: int, w: int) returns (first: Option<int>, second: Option<int>)
    ensures first == Some(v) && second == Some(w)
  {
    var h := new CowHeap<int>();
    var a := h.Make(v);
    var b := h.CopyOf(a);
    assert h.View(a) == Some(v);
    h.WriteMut(b, w);
    var ra := h.GetImmut(a);
    var rb := h.GetImmut(b);
    first := Some(h.cells[ra.value].value);
    second := Some(h.cells[rb.value].value);
  }
}
