/**
 * SimpleSharedPtr<T> and its control block RefCounterModel, over an abstract
 * heap. The heap holds three kinds of C++ objects, each under an address:
 * the T objects, the control blocks, and the SimpleSharedPtr variables that
 * are alive. `new` allocates a fresh address and `delete` removes an entry.
 * The control block's atomic counter is a plain integer (one thread).
 */
module SharedPtr {
  import opened Optional
  import opened Counting

  type ObjId = nat    // address of a T object
  type BlockId = nat  // address of a RefCounterModel
  type PtrId = nat    // a SimpleSharedPtr variable

  /** A RefCounterModel: `m_counter` and `m_obj` (None stands for nullptr). */
  datatype Block = Block(counter: int, obj: Option<ObjId>) {
    /** The block after ShareOwnership: one more owner, unless `m_obj` is null. */
    function Shared(): Block
    {
      if obj.Some? then this.(counter := counter + 1) else this
    }

    /** The block after ReleaseOwnership: one owner less, unless `m_obj` is null. */
    function Released(): Block
    {
      if obj.Some? then this.(counter := counter - 1) else this
    }
  }

  /** No live pointer refers to a deleted block. */
  ghost predicate NoDangling(blocks: map<BlockId, Block>, ptrs: map<PtrId, Option<BlockId>>)
  {
    forall p :: p in ptrs && ptrs[p].Some? ==> ptrs[p].value in blocks
  }

  /** No object is managed by two blocks. */
  ghost predicate Unique(blocks: map<BlockId, Block>)
  {
    forall b, c :: b in blocks && c in blocks && blocks[b].obj.Some? && blocks[b].obj == blocks[c].obj ==> b == c
  }

  /**
   * A block that owns an object keeps it alive and its counter equals its
   * (positive) number of owners; a block around nullptr keeps counter 1.
   */
  ghost predicate BlockOk<T>(objects: map<ObjId, T>, blk: Block, owners: nat)
  {
    if blk.obj.Some? then blk.obj.value in objects && blk.counter == owners && owners >= 1
    else blk.counter == 1
  }

  ghost predicate Counted<T>(objects: map<ObjId, T>, blocks: map<BlockId, Block>, ptrs: map<PtrId, Option<BlockId>>)
  {
    forall b :: b in blocks ==> BlockOk(objects, blocks[b], Count(ptrs, Some(b)))
  }

  /** The whole ownership invariant of a heap. */
  ghost predicate HeapOk<T>(objects: map<ObjId, T>, blocks: map<BlockId, Block>,
                            ptrs: map<PtrId, Option<BlockId>>, next: nat)
  {
    && Below(objects.Keys, next) && Below(blocks.Keys, next) && Below(ptrs.Keys, next)
    && NoDangling(blocks, ptrs) && Unique(blocks) && Counted(objects, blocks, ptrs)
  }

  /** Copy construction into the fresh address `next` keeps the invariant. */
  lemma {:induction false} CopyKeepsInvariant<T>(objects: map<ObjId, T>, blocks: map<BlockId, Block>,
                                                 ptrs: map<PtrId, Option<BlockId>>, next: nat, t: Option<BlockId>)
    requires HeapOk(objects, blocks, ptrs, next)
    requires t.Some? ==> t.value in blocks
    ensures HeapOk(objects, if t.Some? then blocks[t.value := blocks[t.value].Shared()] else blocks,
                   ptrs[next := t], next + 1)
  {
    var blocks' := if t.Some? then blocks[t.value := blocks[t.value].Shared()] else blocks;
    var ptrs' := ptrs[next := t];
    CountInsert(ptrs, next, t);
    forall b | b in blocks' ensures BlockOk(objects, blocks'[b], Count(ptrs', Some(b))) {
      assert BlockOk(objects, blocks[b], Count(ptrs, Some(b)));
    }
    assert Unique(blocks') by {
      forall b, c | b in blocks' && c in blocks' && blocks'[b].obj.Some? && blocks'[b].obj == blocks'[c].obj
        ensures b == c
      {
        assert blocks[b].obj == blocks'[b].obj && blocks[c].obj == blocks'[c].obj;
      }
    }
  }

  /** Move construction into the fresh address `next` keeps the invariant. */
  lemma {:induction false} MoveKeepsInvariant<T>(objects: map<ObjId, T>, blocks: map<BlockId, Block>,
                                                 ptrs: map<PtrId, Option<BlockId>>, next: nat, src: PtrId)
    requires HeapOk(objects, blocks, ptrs, next)
    requires src in ptrs
    ensures HeapOk(objects, blocks, ptrs[src := None][next := ptrs[src]], next + 1)
  {
    var moved := ptrs[src := None];
    var t := ptrs[src];
    CountUpdate(ptrs, src, None);
    CountInsert(moved, next, t);
    forall b | b in blocks ensures BlockOk(objects, blocks[b], Count(moved[next := t], Some(b))) {
      assert Count(moved[next := t], Some(b)) == Count(ptrs, Some(b));
      assert BlockOk(objects, blocks[b], Count(ptrs, Some(b)));
    }
  }

  /**
   * A fresh block at address `b` with counter 1 and its one owner at `p`
   * keep the invariant, when `raw` is null or a live object no block manages.
   */
  lemma {:induction false} NewBlockKeepsInvariant<T>(objects: map<ObjId, T>, blocks: map<BlockId, Block>,
                                                     ptrs: map<PtrId, Option<BlockId>>, next: nat,
                                                     p: PtrId, b: BlockId, raw: Option<ObjId>)
    requires HeapOk(objects, blocks, ptrs, next)
    requires p !in ptrs && p < next && b == next
    requires raw.Some? ==> raw.value in objects && forall c :: c in blocks ==> blocks[c].obj != raw
    ensures HeapOk(objects, blocks[b := Block(1, raw)], ptrs[p := Some(b)], next + 1)
  {
    var blocks' := blocks[b := Block(1, raw)];
    var ptrs' := ptrs[p := Some(b)];
    CountZero(ptrs, Some(b));
    CountInsert(ptrs, p, Some(b));
    forall c | c in blocks' ensures BlockOk(objects, blocks'[c], Count(ptrs', Some(c))) {
      if c != b {
        assert BlockOk(objects, blocks[c], Count(ptrs, Some(c)));
      }
    }
  }

  /**
   * Destroying `p` keeps the invariant: its block loses one owner, and when
   * `p` was the last owner of an object, that object and the block go.
   */
  lemma {:induction false} DestroyKeepsInvariant<T>(objects: map<ObjId, T>, blocks: map<BlockId, Block>,
                                                    ptrs: map<PtrId, Option<BlockId>>, next: nat, p: PtrId)
    requires HeapOk(objects, blocks, ptrs, next)
    requires p in ptrs
    ensures ptrs[p].None? ==> HeapOk(objects, blocks, ptrs - {p}, next)
    ensures ptrs[p].Some? && (blocks[ptrs[p].value].obj.None? || blocks[ptrs[p].value].counter != 1) ==>
              HeapOk(objects, blocks[ptrs[p].value := blocks[ptrs[p].value].Released()], ptrs - {p}, next)
    ensures ptrs[p].Some? && blocks[ptrs[p].value].obj.Some? && blocks[ptrs[p].value].counter == 1 ==>
              var b := ptrs[p].value;
              HeapOk(objects - {blocks[b].obj.value}, blocks - {b}, ptrs - {p}, next)
  {
    CountRemove(ptrs, p);
    var m := ptrs - {p};
    if ptrs[p].None? {
      forall c | c in blocks ensures BlockOk(objects, blocks[c], Count(m, Some(c))) {
        assert BlockOk(objects, blocks[c], Count(ptrs, Some(c)));
      }
    } else {
      var b := ptrs[p].value;
      var blk := blocks[b];
      assert BlockOk(objects, blk, Count(ptrs, Some(b)));
      if blk.obj.Some? && blk.counter == 1 {
        var o := blk.obj.value;
        var blocks' := blocks - {b};
        CountZero(m, Some(b));
        forall q | q in m && m[q].Some? ensures m[q].value in blocks' {
          assert m[q].value in blocks;
        }
        forall c | c in blocks' ensures BlockOk(objects - {o}, blocks'[c], Count(m, Some(c))) {
          assert BlockOk(objects, blocks[c], Count(ptrs, Some(c)));
        }
      } else {
        var blocks' := blocks[b := blk.Released()];
        forall c | c in blocks' ensures BlockOk(objects, blocks'[c], Count(m, Some(c))) {
          assert BlockOk(objects, blocks[c], Count(ptrs, Some(c)));
        }
        assert Unique(blocks') by {
          forall c, d | c in blocks' && d in blocks' && blocks'[c].obj.Some? && blocks'[c].obj == blocks'[d].obj
            ensures c == d
          {
            assert blocks[c].obj == blocks'[c].obj && blocks[d].obj == blocks'[d].obj;
          }
        }
      }
    }
  }

  class Heap<T> {
    var objects: map<ObjId, T>              // live T objects and their values
    var blocks: map<BlockId, Block>         // live control blocks
    var ptrs: map<PtrId, Option<BlockId>>   // live SimpleSharedPtrs and their m_pRefCntObj
    var next: nat                           // every address from here on is unused

    ghost predicate Valid()
      reads this
    {
      HeapOk(objects, blocks, ptrs, next)
    }

    /** Object `o` is already managed by some control block. */
    ghost predicate Owned(o: ObjId)
      reads this
    {
      exists b :: b in blocks && blocks[b].obj == Some(o)
    }

    /** `p` refers to a block that owns an object, and no other live pointer does. */
    ghost predicate LastOwner(p: PtrId)
      reads this
      requires p in ptrs
    {
      && ptrs[p].Some?
      && ptrs[p].value in blocks
      && blocks[ptrs[p].value].obj.Some?
      && Count(ptrs, ptrs[p]) == 1
    }

    constructor ()
      ensures Valid()
      ensures objects == map[] && blocks == map[] && ptrs == map[]
    {
      objects, blocks, ptrs, next := map[], map[], map[], 0;
    }

    /** `new T(ts...)`: a fresh object that no block manages yet. */
    method NewObject(v: T) returns (o: ObjId)
      requires Valid()
      modifies this
      ensures Valid()
      ensures o !in old(objects) && objects == old(objects)[o := v]
      ensures blocks == old(blocks) && ptrs == old(ptrs)
      ensures !Owned(o)
    {
      o := next;
      next := next + 1;
      objects := objects[o := v];
      assert forall b :: b in blocks && blocks[b].obj.Some? ==> blocks[b].obj.value in old(objects);
    }

    /** `*o = v` through a raw T* obtained from Get. */
    method Store(o: ObjId, v: T)
      requires Valid() && o in objects
      modifies this
      ensures Valid()
      ensures objects == old(objects)[o := v]
      ensures blocks == old(blocks) && ptrs == old(ptrs)
    {
      objects := objects[o := v];
      assert forall b :: b in blocks ==> BlockOk(old(objects), blocks[b], Count(ptrs, Some(b)));
    }

    /** RefCounterModel::ShareOwnership. */
    method ShareOwnership(b: BlockId)
      requires b in blocks
      modifies this
      ensures objects == old(objects) && ptrs == old(ptrs) && next == old(next)
      ensures blocks == old(blocks)[b := old(blocks[b]).Shared()]
    {
      var blk := blocks[b];
      if blk.obj.Some? {
        blocks := blocks[b := blk.(counter := blk.counter + 1)];
      }
    }

    /**
     * RefCounterModel::ReleaseOwnership: the object is deleted, and true
     * returned, exactly when a non-null object's counter reaches 0.
     */
    method ReleaseOwnership(b: BlockId) returns (deleted: bool)
      requires b in blocks
      requires blocks[b].obj.Some? ==> blocks[b].obj.value in objects
      modifies this
      ensures ptrs == old(ptrs) && next == old(next)
      ensures blocks == old(blocks)[b := old(blocks[b]).Released()]
      ensures deleted <==> blocks[b].obj.Some? && blocks[b].counter == 0
      ensures objects == if deleted then old(objects) - {blocks[b].obj.value} else old(objects)
    {
      var blk := blocks[b];
      deleted := false;
      if blk.obj.Some? {
        blk := blk.(counter := blk.counter - 1);
        blocks := blocks[b := blk];
        if blk.counter == 0 {
          objects := objects - {blk.obj.value};
          deleted := true;
        }
      }
    }

    /** `SimpleSharedPtr()`: no control block. */
    method Default() returns (p: PtrId)
      requires Valid()
      modifies this
      ensures Valid()
      ensures p !in old(ptrs) && ptrs == old(ptrs)[p := None]
      ensures objects == old(objects) && blocks == old(blocks)
    {
      CopyKeepsInvariant(objects, blocks, ptrs, next, None);
      p := next;
      next := next + 1;
      ptrs := ptrs[p := None];
    }

    /**
     * `SimpleSharedPtr(T* ptr)`: a fresh control block with counter 1 that
     * takes over `raw`, which must be null or an object no block manages.
     */
    method FromRaw(raw: Option<ObjId>) returns (p: PtrId)
      requires Valid()
      requires raw.Some? ==> raw.value in objects && !Owned(raw.value)
      modifies this
      ensures Valid()
      ensures p !in old(ptrs) && p in ptrs && ptrs[p].Some? && ptrs == old(ptrs)[p := ptrs[p]]
      ensures ptrs[p].value !in old(blocks) && blocks == old(blocks)[ptrs[p].value := Block(1, raw)]
      ensures objects == old(objects)
    {
      p := next;
      next := next + 1;
      var b := next;
      NewBlockKeepsInvariant(objects, blocks, ptrs, next, p, b, raw);
      next := next + 1;
      blocks := blocks[b := Block(1, raw)];
      ptrs := ptrs[p := Some(b)];
    }

    /** The copy constructor: share `src`'s block and count the new owner. */
    method Copy(src: PtrId) returns (p: PtrId)
      requires Valid() && src in ptrs
      modifies this
      ensures Valid()
      ensures p !in old(ptrs) && ptrs == old(ptrs)[p := old(ptrs[src])]
      ensures objects == old(objects)
      ensures old(ptrs[src]).None? ==> blocks == old(blocks)
      ensures old(ptrs[src]).Some? ==>
                blocks == old(blocks)[old(ptrs[src]).value := old(blocks[ptrs[src].value]).Shared()]
    {
      var blk := ptrs[src];
      CopyKeepsInvariant(objects, blocks, ptrs, next, blk);
      p := next;
      next := next + 1;
      ptrs := ptrs[p := blk];
      if blk.Some? {
        ShareOwnership(blk.value);
      }
    }

    /** The move constructor: take `src`'s block and leave `src` null; no counter changes. */
    method Move(src: PtrId) returns (p: PtrId)
      requires Valid() && src in ptrs
      modifies this
      ensures Valid()
      ensures p !in old(ptrs) && ptrs == old(ptrs)[src := None][p := old(ptrs[src])]
      ensures objects == old(objects) && blocks == old(blocks)
    {
      var blk := ptrs[src];
      MoveKeepsInvariant(objects, blocks, ptrs, next, src);
      p := next;
      next := next + 1;
      ptrs := ptrs[src := None][p := blk];
    }

    /**
     * The destructor: release the block's ownership; when that deletes the
     * object, delete the block and null the field. The object is freed
     * exactly when `p` was its last owner. `p` is dead afterwards.
     */
    method Destroy(p: PtrId) returns (released: bool)
      requires Valid() && p in ptrs
      modifies this
      ensures Valid()
      ensures ptrs == old(ptrs) - {p} && next == old(next)
      ensures released == old(LastOwner(p))
      ensures old(ptrs[p]).None? ==> blocks == old(blocks) && objects == old(objects)
      ensures old(ptrs[p]).Some? && released ==>
                blocks == old(blocks) - {old(ptrs[p]).value}
                && objects == old(objects) - {old(blocks[ptrs[p].value]).obj.value}
      ensures old(ptrs[p]).Some? && !released ==>
                objects == old(objects)
                && blocks == old(blocks)[old(ptrs[p]).value := old(blocks[ptrs[p].value]).Released()]
    {
      var blk := ptrs[p];
      released := false;
      DestroyKeepsInvariant(objects, blocks, ptrs, next, p);
      if blk.Some? {
        var b := blk.value;
        assert BlockOk(objects, blocks[b], Count(ptrs, Some(b)));
        released := ReleaseOwnership(b);
        if released {
          blocks := blocks - {b};
          ptrs := ptrs[p := None];
        }
      }
      assert ptrs - {p} == old(ptrs) - {p};
      ptrs := ptrs - {p};
    }

    /** SimpleSharedPtr::Get: the block's object (RefCounterModel::Get), or null without a block. */
    method Get(p: PtrId) returns (r: Option<ObjId>)
      requires Valid() && p in ptrs
      ensures r == if ptrs[p].None? then None else blocks[ptrs[p].value].obj
      ensures r.Some? ==> r.value in objects
    {
      r := if ptrs[p].Some? then blocks[ptrs[p].value].obj else None;
      if r.Some? {
        assert BlockOk(objects, blocks[ptrs[p].value], Count(ptrs, ptrs[p]));
      }
    }

    /**
     * SimpleSharedPtr::Reset: run the destructor on `p`, then give `p` a
     * fresh block with counter 1 that takes over `raw`.
     */
    method Reset(p: PtrId, raw: Option<ObjId>)
      requires Valid() && p in ptrs
      requires raw.Some? ==> raw.value in objects && !Owned(raw.value)
      modifies this
      ensures Valid()
      ensures ptrs.Keys == old(ptrs).Keys
      ensures forall q :: q in ptrs && q != p ==> ptrs[q] == old(ptrs[q])
      ensures ptrs[p].Some? && ptrs[p].value !in old(blocks) && blocks[ptrs[p].value] == Block(1, raw)
      ensures old(ptrs[p]).None? ==> blocks == old(blocks)[ptrs[p].value := Block(1, raw)]
      ensures old(ptrs[p]).Some? && old(LastOwner(p)) ==>
                blocks == (old(blocks) - {old(ptrs[p].value)})[ptrs[p].value := Block(1, raw)]
      ensures old(ptrs[p]).Some? && !old(LastOwner(p)) ==>
                blocks == old(blocks)[old(ptrs[p].value) := old(blocks[ptrs[p].value]).Released()][ptrs[p].value := Block(1, raw)]
      ensures old(LastOwner(p)) ==> objects == old(objects) - {old(blocks[ptrs[p].value]).obj.value}
      ensures !old(LastOwner(p)) ==> objects == old(objects)
    {
      ghost var before, objs, last := blocks, objects, LastOwner(p);
      var released := Destroy(p);
      assert released == last;
      assert forall c :: c in blocks ==> c in before && blocks[c].obj == before[c].obj;
      ghost var objs' := objects;
      var b := next;
      NewBlockKeepsInvariant(objects, blocks, ptrs, next, p, b, raw);
      next := next + 1;
      blocks := blocks[b := Block(1, raw)];
      ptrs := ptrs[p := Some(b)];
      assert objects == objs';
    }

    /** MakeSharedPtr<T>(ts...): `new T(ts...)` handed to a fresh pointer. */
    method MakeSharedPtr(v: T) returns (p: PtrId)
      requires Valid()
      modifies this
      ensures Valid()
      ensures p !in old(ptrs) && p in ptrs && ptrs[p].Some? && ptrs == old(ptrs)[p := ptrs[p]]
      ensures ptrs[p].value !in old(blocks)
      ensures var blk := blocks[ptrs[p].value];
              && blocks == old(blocks)[ptrs[p].value := blk]
              && blk.counter == 1 && blk.obj.Some?
              && blk.obj.value !in old(objects) && objects == old(objects)[blk.obj.value := v]
    {
      var o := NewObject(v);
      p := FromRaw(Some(o));
    }
  }

  /**
   * In a valid heap, a pointer to a block that owns an object is its last
   * owner exactly when the block's counter is 1.
   */
  lemma LastOwnerHasCounterOne<T>(h: Heap<T>, p: PtrId)
    requires h.Valid() && p in h.ptrs && h.ptrs[p].Some?
    requires h.blocks[h.ptrs[p].value].obj.Some?
    ensures h.LastOwner(p) <==> h.blocks[h.ptrs[p].value].counter == 1
  {
  }

  /**
   * In a valid heap, a pointer to a block that owns an object is its last
   * owner exactly when no other live pointer refers to that block: so the
   * destructor frees the object when, and only when, the last reference to
   * it dies.
   */
  lemma LastOwnerIsSoleReference<T>(h: Heap<T>, p: PtrId)
    requires h.Valid() && p in h.ptrs && h.ptrs[p].Some?
    requires h.blocks[h.ptrs[p].value].obj.Some?
    ensures h.LastOwner(p) <==> forall q :: q in h.ptrs && h.ptrs[q] == h.ptrs[p] ==> q == p
  {
    CountOne(h.ptrs, p);
  }

  /**
   * In a valid heap, every block that owns an object is referred to by some
   * live pointer: an object is never left alive without an owner.
   */
  lemma OwnedObjectIsReferenced<T>(h: Heap<T>, b: BlockId)
    requires h.Valid() && b in h.blocks && h.blocks[b].obj.Some?
    ensures exists p :: p in h.ptrs && h.ptrs[p] == Some(b)
  {
  }

  /**
   * The first scope of the C++ `main`: a default pointer and a copy of
   * it. Neither allocates anything, and nothing is left afterwards.
   */
  method NullScope() returns (seen: Option<ObjId>, live: nat)
    ensures seen == None && live == 0
  {
    var h := new Heap<int>();
    var obj1 := h.Default();
    var obj2 := h.Copy(obj1);
    seen := h.Get(obj2);
    var r2 := h.Destroy(obj2);
    var r1 := h.Destroy(obj1);
    live := |h.objects| + |h.blocks| + |h.ptrs|;
  }

  /**
   * A pointer built from nullptr gets a control block around null, and a copy
   * shares it without counting. ReleaseOwnership never reports the end of
   * such a block, so after both destructors it is still allocated.
   */
  method NullOwnerScope() returns (released: bool, leaked: nat)
    ensures !released && leaked == 1
  {
    var h := new Heap<int>();
    var p := h.FromRaw(None);
    var q := h.Copy(p);
    var r1 := h.Destroy(q);
    released := h.Destroy(p);
    leaked := |h.blocks|;
  }

  /**
   * Two of three pointers sharing block `b` die: the block survives with
   * one owner left and its object stays alive.
   */
  method DropTwoSharers(h: Heap<int>, obj2: PtrId, obj3: PtrId, obj4: PtrId, b: BlockId)
    requires h.Valid()
    requires obj2 != obj3 && obj2 != obj4 && obj3 != obj4
    requires obj2 in h.ptrs && obj3 in h.ptrs && obj4 in h.ptrs
    requires h.ptrs[obj2] == Some(b) && h.ptrs[obj3] == Some(b) && h.ptrs[obj4] == Some(b)
    requires h.blocks[b].obj.Some? && h.blocks[b].counter == 3
    modifies h
    ensures h.Valid()
    ensures h.ptrs == old(h.ptrs) - {obj3, obj4}
    ensures h.objects == old(h.objects) && h.blocks.Keys == old(h.blocks).Keys
    ensures h.blocks[b] == old(h.blocks[b]).(counter := 1)
  {
    LastOwnerHasCounterOne(h, obj4);
    var r4 := h.Destroy(obj4);
    LastOwnerHasCounterOne(h, obj3);
    var r3 := h.Destroy(obj3);
  }

  /**
   * The end of a scope of `main` that holds four pointers, declared in the
   * order obj1..obj4: obj1 moved-from, the other three sharing block `b`.
   * The destructors run in reverse order and free everything.
   */
  method EndOfScope(h: Heap<int>, obj1: PtrId, obj2: PtrId, obj3: PtrId, obj4: PtrId, b: BlockId, x: ObjId)
    requires h.Valid()
    requires obj1 != obj2 && obj1 != obj3 && obj1 != obj4 && obj2 != obj3 && obj2 != obj4 && obj3 != obj4
    requires h.ptrs == map[obj1 := None, obj2 := Some(b), obj3 := Some(b), obj4 := Some(b)]
    requires h.blocks == map[b := Block(3, Some(x))] && h.objects.Keys == {x}
    modifies h
    ensures h.objects == map[] && h.blocks == map[] && h.ptrs == map[]
  {
    DropTwoSharers(h, obj2, obj3, obj4, b);
    assert h.ptrs.Keys == {obj1, obj2};
    LastOwnerHasCounterOne(h, obj2);
    var r2 := h.Destroy(obj2);
    var r1 := h.Destroy(obj1);
  }

  /**
   * The start of the second and third scopes of `main`: one pointer over a
   * fresh int, made from `new int{99}` or by MakeSharedPtr<int>(8888).
   */
  method FirstOwner(h: Heap<int>, viaMake: bool) returns (obj1: PtrId, b: BlockId, x: ObjId)
    requires h.Valid() && h.objects == map[] && h.blocks == map[] && h.ptrs == map[]
    modifies h
    ensures h.Valid()
    ensures h.ptrs == map[obj1 := Some(b)] && h.blocks == map[b := Block(1, Some(x))]
    ensures h.objects == map[x := if viaMake then 8888 else 99]
  {
    if viaMake {
      obj1 := h.MakeSharedPtr(8888);
    } else {
      var raw := h.NewObject(99);
      obj1 := h.FromRaw(Some(raw));
    }
    b := h.ptrs[obj1].value;
    x := h.blocks[b].obj.value;
  }

  /**
   * A copy of the first owner, through which the shared int is incremented;
   * the first owner then sees the new value.
   */
  method CopyAndIncrement(h: Heap<int>, obj1: PtrId, b: BlockId, x: ObjId) returns (obj2: PtrId, o: int)
    requires h.Valid()
    requires h.ptrs == map[obj1 := Some(b)] && h.blocks == map[b := Block(1, Some(x))] && h.objects.Keys == {x}
    modifies h
    ensures h.Valid() && obj2 != obj1
    ensures h.ptrs == map[obj1 := Some(b), obj2 := Some(b)] && h.blocks == map[b := Block(2, Some(x))]
    ensures h.objects == map[x := old(h.objects[x]) + 1] && o == old(h.objects[x]) + 1
  {
    obj2 := h.Copy(obj1);
    var t := h.Get(obj2);
    h.Store(t.value, h.objects[t.value] + 1);
    var seen := h.Get(obj1);
    o := h.objects[seen.value];
  }

  /**
   * The first owner is moved into a third pointer: the block keeps its two
   * owners and the moved-from pointer is null.
   */
  method MoveOwner(h: Heap<int>, obj1: PtrId, obj2: PtrId, b: BlockId, x: ObjId)
    returns (obj3: PtrId, movedFrom: Option<ObjId>, movedTo: Option<ObjId>)
    requires h.Valid() && obj1 != obj2
    requires h.ptrs == map[obj1 := Some(b), obj2 := Some(b)] && h.blocks == map[b := Block(2, Some(x))]
    modifies h
    ensures h.Valid() && obj3 != obj1 && obj3 != obj2
    ensures h.ptrs == map[obj1 := None, obj2 := Some(b), obj3 := Some(b)]
    ensures h.blocks == old(h.blocks) && h.objects == old(h.objects)
    ensures movedFrom == None && movedTo == Some(x)
  {
    obj3 := h.Move(obj1);
    movedFrom := h.Get(obj1);
    movedTo := h.Get(obj3);
  }

  /** The second owner is copied into a fourth pointer: three owners share the block. */
  method CopyAgain(h: Heap<int>, obj1: PtrId, obj2: PtrId, obj3: PtrId, b: BlockId, x: ObjId) returns (obj4: PtrId)
    requires h.Valid() && obj1 != obj2 && obj1 != obj3 && obj2 != obj3
    requires h.ptrs == map[obj1 := None, obj2 := Some(b), obj3 := Some(b)] && h.blocks == map[b := Block(2, Some(x))]
    modifies h
    ensures h.Valid() && obj4 != obj1 && obj4 != obj2 && obj4 != obj3
    ensures h.ptrs == map[obj1 := None, obj2 := Some(b), obj3 := Some(b), obj4 := Some(b)]
    ensures h.blocks == map[b := Block(3, Some(x))] && h.objects == old(h.objects)
  {
    obj4 := h.Copy(obj2);
  }

  /**
   * The second and third scopes of the C++ `main`: a pointer over
   * `new int{99}` (or MakeSharedPtr<int>(8888)), a copy whose object is
   * incremented through Get, a move, another copy, and the end of the scope.
   * Returns what is printed as "o:" and as "p:", and how many objects,
   * blocks and pointers are left afterwards.
   */
  method SharingScope(viaMake: bool) returns (o: int, movedFrom: Option<ObjId>, movedTo: Option<ObjId>, live: nat)
    ensures o == (if viaMake then 8889 else 100)
    ensures movedFrom == None && movedTo.Some?
    ensures live == 0
  {
    var h := new Heap<int>();
    var obj1, b, x := FirstOwner(h, viaMake);
    var obj2;
    obj2, o := CopyAndIncrement(h, obj1, b, x);
    var obj3;
    obj3, movedFrom, movedTo := MoveOwner(h, obj1, obj2, b, x);
    var obj4 := CopyAgain(h, obj1, obj2, obj3, b, x);
    EndOfScope(h, obj1, obj2, obj3, obj4, b, x);
    live := |h.objects| + |h.blocks| + |h.ptrs|;
  }
}
