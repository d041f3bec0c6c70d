/**
 Counted handles: the HDF5 library's reference counts, the C++ objects that hold ids, and every way
 an object comes to hold, share, hand over or give up an id.
 */
module Handles {

  /** H5I_UNINIT */
  const UNINIT := -2

  /** References to each valid id, the id in every live handle object, references held by code
      outside the handles, the ids created so far and the ids closed, in order. */
  datatype State<T> = State(
    refs: map<int, nat>,
    handles: map<T, int>,
    outside: map<int, nat>,
    created: set<int>,
    closed: seq<int>)

  datatype Op<T> =
    | Adopt(h: T, id: int)          // hid_t{id}: takes over a reference of the caller's
    | Wrap(h: T, id: int)           // hid_t(id)
    | Default(h: T)                 // hid_t()
    | Copy(h: T, from: T)           // hid_t(const hid_t&)
    | Move(h: T, from: T)           // hid_t(hid_t&&)
    | CopyAssign(h: T, from: T)     // operator=(const hid_t&)
    | MoveAssign(h: T, from: T)     // operator=(hid_t&&)
    | Destroy(h: T)                 // ~hid_t()
    | Release(h: T)                 // release(): the caller now holds the reference
    | Open(id: int)                 // C code obtains a new id
    | IncRef(id: int)               // C code shares an id
    | Close(id: int)                // C code gives one of its references back

  /** H5Iinc_ref behind an H5Iis_valid test. */
  function Inc(refs: map<int, nat>, id: int): (r: map<int, nat>) {
    if id in refs then refs[id := refs[id] + 1] else refs
  }

  /** capi_close behind an H5Iis_valid test: the object goes with its last reference. */
  function Dec(refs: map<int, nat>, id: int): (r: map<int, nat>) {
    if id !in refs then refs
    else if refs[id] <= 1 then refs - {id}
    else refs[id := refs[id] - 1]
  }

  function ClosedBy(refs: map<int, nat>, id: int): (closed: seq<int>) {
    if id in refs && refs[id] <= 1 then [id] else []
  }

  function Held(outside: map<int, nat>, id: int): (k: nat) {
    if id in outside then outside[id] else 0
  }

  function Owners<T>(handles: map<T, int>, id: int): (owners: set<T>) {
    set h | h in handles && handles[h] == id
  }

  /** What C++ and the library's documented contract ask of callers: objects are constructed once
      and used while alive, a reference is given away or closed only by somebody who has one, and a
      new id was never seen before. */
  predicate Enabled<T>(s: State<T>, op: Op<T>) {
    match op
    case Adopt(h, id) => h !in s.handles && (id in s.refs ==> Held(s.outside, id) > 0)
    case Wrap(h, _) => h !in s.handles
    case Default(h) => h !in s.handles
    case Copy(h, from) => h !in s.handles && from in s.handles
    case Move(h, from) => h !in s.handles && from in s.handles
    case CopyAssign(h, from) => h in s.handles && from in s.handles
    case MoveAssign(h, from) => h in s.handles && from in s.handles
    case Destroy(h) => h in s.handles
    case Release(h) => h in s.handles
    case Open(id) => id >= 0 && id !in s.refs && id !in s.created && id !in s.handles.Values
    case IncRef(id) => id in s.refs
    case Close(id) => Held(s.outside, id) > 0
  }

  function Give<T>(s: State<T>, id: int): (s': State<T>) {
    s.(refs := Dec(s.refs, id), closed := s.closed + ClosedBy(s.refs, id))
  }

  function Do<T>(s: State<T>, op: Op<T>): (s': State<T>)
    requires Enabled(s, op)
  {
    match op
    case Adopt(h, id) =>
      s.(handles := s.handles[h := id],
         outside := if id in s.refs then s.outside[id := Held(s.outside, id) - 1] else s.outside)
    case Wrap(h, id) => s.(handles := s.handles[h := id], refs := Inc(s.refs, id))
    case Default(h) => s.(handles := s.handles[h := UNINIT])
    case Copy(h, from) => s.(handles := s.handles[h := s.handles[from]], refs := Inc(s.refs, s.handles[from]))
    case Move(h, from) => s.(handles := s.handles[h := s.handles[from]][from := UNINIT])
    case CopyAssign(h, from) =>
      if h == from then s
      else
        var s1 := Give(s, s.handles[h]);
        s1.(handles := s.handles[h := s.handles[from]], refs := Inc(s1.refs, s.handles[from]))
    case MoveAssign(h, from) =>
      if h == from then s
      else Give(s, s.handles[h]).(handles := s.handles[h := s.handles[from]][from := UNINIT])
    case Destroy(h) => Give(s, s.handles[h]).(handles := s.handles - {h})
    case Release(h) =>
      var id := s.handles[h];
      s.(handles := s.handles[h := UNINIT],
         outside := if id in s.refs then s.outside[id := Held(s.outside, id) + 1] else s.outside)
    case Open(id) => s.(refs := s.refs[id := 1], outside := s.outside[id := 1], created := s.created + {id})
    case IncRef(id) => s.(refs := Inc(s.refs, id), outside := s.outside[id := Held(s.outside, id) + 1])
    case Close(id) => Give(s, id).(outside := s.outside[id := Held(s.outside, id) - 1])
  }

  function Empty<T>(): (s: State<T>) {
    State(map[], map[], map[], {}, [])
  }

  ghost predicate Legal<T>(s: State<T>, ops: seq<Op<T>>)
    decreases |ops|
  {
    ops != [] ==> Enabled(s, ops[0]) && Legal(Do(s, ops[0]), ops[1..])
  }

  function Exec<T>(s: State<T>, ops: seq<Op<T>>): (s': State<T>)
    requires Legal(s, ops)
    decreases |ops|
  {
    if ops == [] then s else Exec(Do(s, ops[0]), ops[1..])
  }

  // ---- conservation ----

  /** An id's count is its live owners plus the references outside; an invalid id has none outside. */
  ghost predicate Balance<T>(s: State<T>, id: int) {
    if id in s.refs then s.refs[id] == |Owners(s.handles, id)| + Held(s.outside, id) >= 1
    else Held(s.outside, id) == 0
  }

  /** Closed exactly the ids that were created and are valid no more, each once. */
  ghost predicate History<T>(s: State<T>) {
    && (forall id :: id in s.refs ==> id in s.created && id >= 0)
    && (forall id :: id in s.closed <==> id in s.created && id !in s.refs)
    && (forall i, j :: 0 <= i < j < |s.closed| ==> s.closed[i] != s.closed[j])
  }

  ghost predicate Conserved<T>(s: State<T>) {
    History(s) && forall id :: Balance(s, id)
  }

  lemma OwnersOther<T>(handles: map<T, int>, h: T, v: int, id: int)
    requires v != id && (h in handles ==> handles[h] != id)
    ensures Owners(handles[h := v], id) == Owners(handles, id)
  {}

  lemma OwnersMore<T>(handles: map<T, int>, h: T, id: int)
    requires h in handles ==> handles[h] != id
    ensures |Owners(handles[h := id], id)| == |Owners(handles, id)| + 1
  {
    assert Owners(handles[h := id], id) == Owners(handles, id) + {h} && h !in Owners(handles, id);
  }

  lemma OwnersFewer<T>(handles: map<T, int>, h: T, v: int, id: int)
    requires v != id && h in handles && handles[h] == id
    ensures |Owners(handles[h := v], id)| + 1 == |Owners(handles, id)|
  {
    assert Owners(handles, id) == Owners(handles[h := v], id) + {h} && h !in Owners(handles[h := v], id);
  }

  /** How setting one handle changes the number of owners of any id. */
  lemma OwnersSet<T>(handles: map<T, int>, h: T, v: int, id: int)
    ensures |Owners(handles[h := v], id)| + (if h in handles && handles[h] == id then 1 else 0)
         == |Owners(handles, id)| + (if v == id then 1 else 0)
  {
    if h in handles && handles[h] == id {
      if v == id {
        assert Owners(handles[h := v], id) == Owners(handles, id);
      } else {
        OwnersFewer(handles, h, v, id);
      }
    } else if v == id {
      OwnersMore(handles, h, id);
    } else {
      OwnersOther(handles, h, v, id);
    }
  }

  lemma OwnersGone<T>(handles: map<T, int>, h: T, id: int)
    requires h in handles
    ensures |Owners(handles - {h}, id)| + (if handles[h] == id then 1 else 0) == |Owners(handles, id)|
  {
    if handles[h] == id {
      assert Owners(handles, id) == Owners(handles - {h}, id) + {h} && h !in Owners(handles - {h}, id);
    } else {
      assert Owners(handles, id) == Owners(handles - {h}, id);
    }
  }

  lemma Unheld<T>(handles: map<T, int>, id: int)
    requires id !in handles.Values
    ensures Owners(handles, id) == {}
  {}

  lemma OwnerCounts<T>(handles: map<T, int>, h: T)
    requires h in handles
    ensures |Owners(handles, handles[h])| >= 1
  {
    assert h in Owners(handles, handles[h]);
  }

  /** Two different objects with the same id are two owners. */
  lemma OwnersPair<T>(handles: map<T, int>, a: T, b: T)
    requires a in handles && b in handles && a != b && handles[a] == handles[b]
    ensures |Owners(handles, handles[a])| >= 2
  {
    var o := Owners(handles, handles[a]);
    assert o == (o - {a, b}) + {a, b} && |{a, b}| == 2;
  }

  /** Assignment first gives up the old id, even when it is the id being assigned. */
  lemma CopyAssignBalance<T>(s: State<T>, h: T, from: T, id: int)
    requires Conserved(s) && Enabled(s, CopyAssign(h, from))
    ensures Balance(Do(s, CopyAssign(h, from)), id)
  {
    assert Balance(s, id);
    if h != from {
      OwnersSet(s.handles, h, s.handles[from], id);
      OwnerCounts(s.handles, h);
      if s.handles[h] == s.handles[from] { OwnersPair(s.handles, h, from); }
    }
  }

  lemma MoveAssignBalance<T>(s: State<T>, h: T, from: T, id: int)
    requires Conserved(s) && Enabled(s, MoveAssign(h, from))
    ensures Balance(Do(s, MoveAssign(h, from)), id)
  {
    assert Balance(s, id);
    if h != from {
      MoveOwners(s, h, from, id);
      OwnerCounts(s.handles, h);
      if s.handles[h] == s.handles[from] { OwnersPair(s.handles, h, from); }
    }
  }

  lemma BalanceStep<T>(s: State<T>, op: Op<T>, id: int)
    requires Conserved(s) && Enabled(s, op)
    ensures Balance(Do(s, op), id)
  {
    assert Balance(s, id);
    match op
    case Adopt(h, v) => OwnersSet(s.handles, h, v, id);
    case Wrap(h, v) => OwnersSet(s.handles, h, v, id);
    case Default(h) => OwnersSet(s.handles, h, UNINIT, id);
    case Copy(h, from) => OwnersSet(s.handles, h, s.handles[from], id);
    case Move(h, from) => MoveOwners(s, h, from, id);
    case CopyAssign(h, from) => CopyAssignBalance(s, h, from, id);
    case MoveAssign(h, from) => MoveAssignBalance(s, h, from, id);
    case Destroy(h) => OwnersGone(s.handles, h, id);
    case Release(h) => OwnersSet(s.handles, h, UNINIT, id);
    case Open(v) => if v == id { Unheld(s.handles, id); }
    case IncRef(_) =>
    case Close(_) =>
  }

  lemma MoveOwners<T>(s: State<T>, h: T, from: T, id: int)
    requires from in s.handles && h != from
    ensures |Owners(s.handles[h := s.handles[from]][from := UNINIT], id)|
            + (if h in s.handles && s.handles[h] == id then 1 else 0)
         == |Owners(s.handles, id)| + (if UNINIT == id then 1 else 0)
  {
    OwnersSet(s.handles, h, s.handles[from], id);
    OwnersSet(s.handles[h := s.handles[from]], from, UNINIT, id);
  }

  lemma HistoryStep<T>(s: State<T>, op: Op<T>)
    requires Conserved(s) && Enabled(s, op)
    ensures History(Do(s, op))
  {
    match op
    case CopyAssign(h, from) => GiveHistory(s, s.handles[h]);
    case MoveAssign(h, from) => GiveHistory(s, s.handles[h]);
    case Destroy(h) => GiveHistory(s, s.handles[h]);
    case Close(id) => GiveHistory(s, id);
    case _ =>
  }

  lemma GiveHistory<T>(s: State<T>, id: int)
    requires History(s)
    ensures History(Give(s, id))
  {
    if id in s.refs { assert id !in s.closed; }
  }

  lemma ConservedStep<T>(s: State<T>, op: Op<T>)
    requires Conserved(s) && Enabled(s, op)
    ensures Conserved(Do(s, op))
  {
    HistoryStep(s, op);
    forall id
      ensures Balance(Do(s, op), id)
    {
      BalanceStep(s, op, id);
    }
  }

  lemma {:induction false} ConservedRun<T>(s: State<T>, ops: seq<Op<T>>)
    requires Conserved(s) && Legal(s, ops)
    ensures Conserved(Exec(s, ops))
    decreases |ops|
  {
    if ops != [] {
      ConservedStep(s, ops[0]);
      ConservedRun(Do(s, ops[0]), ops[1..]);
    }
  }

  /** Over every history: the count of an id is the number of live handles that hold it plus the
      references outside, and it has been closed, once, exactly if that number came down to zero. */
  lemma EveryHistory<T>(ops: seq<Op<T>>, id: int)
    requires Legal(Empty<T>(), ops)
    ensures var s := Exec(Empty<T>(), ops);
            && (id in s.refs ==> s.refs[id] == |Owners(s.handles, id)| + Held(s.outside, id) >= 1)
            && (id in s.closed <==> id in s.created && id !in s.refs)
            && (forall i, j :: 0 <= i < j < |s.closed| ==> s.closed[i] != s.closed[j])
  {
    assert Conserved(Empty<T>());
    ConservedRun(Empty<T>(), ops);
    assert Balance(Exec(Empty<T>(), ops), id);
  }

  // ---- the class ----

  /** What a reference table says about an id before and after: a valid id has one reference more, */
  predicate Gained(before: map<int, nat>, after: map<int, nat>, id: int) {
    if id in before then id in after && after[id] == before[id] + 1 else id !in after
  }

  /** or one less, and is gone with the last; */
  predicate Lost(before: map<int, nat>, after: map<int, nat>, id: int) {
    if id in before && before[id] > 1 then id in after && after[id] == before[id] - 1 else id !in after
  }

  /** the others keep theirs. */
  ghost predicate Kept(before: map<int, nat>, after: map<int, nat>, ids: set<int>) {
    forall k :: k !in ids ==> (k in before <==> k in after) && (k in before ==> before[k] == after[k])
  }

  /** The library's side: its reference table, and in ghost fields the history the proofs follow. */
  class Library {
    var refs: map<int, nat>
    var closed: seq<int>
    ghost var live: set<Handle>
    ghost var outside: map<int, nat>
    ghost var created: set<int>

    ghost function View(): State<Handle>
      reads this, live
    {
      State(refs, map h | h in live :: h.id, outside, created, closed)
    }

    method IncRef(id: int)
      requires id in refs
      modifies this`refs
      ensures refs == Inc(old(refs), id)
      ensures Gained(old(refs), refs, id) && Kept(old(refs), refs, {id})
    {
      refs := refs[id := refs[id] + 1];
    }

    /** capi_close */
    method CloseRef(id: int)
      requires id in refs
      modifies this`refs, this`closed
      ensures refs == Dec(old(refs), id) && closed == old(closed) + ClosedBy(old(refs), id)
      ensures Lost(old(refs), refs, id) && Kept(old(refs), refs, {id})
      ensures closed == if id in refs then old(closed) else old(closed) + [id]
    {
      if refs[id] <= 1 {
        refs := refs - {id};
        closed := closed + [id];
      } else {
        refs := refs[id := refs[id] - 1];
      }
    }
  }

  /** hid_t<T, capi_close, true, true, any>. Each member does to the view what its operation says. */
  class Handle {
    var id: int

    constructor Adopt(lib: Library, handle: int)
      requires handle in lib.refs ==> Held(lib.outside, handle) > 0
      modifies lib`live, lib`outside
      ensures this !in old(lib.live) && lib.live == old(lib.live) + {this}
      ensures lib.View() == Do(old(lib.View()), Op.Adopt(this, handle))
      ensures id == handle && lib.refs == old(lib.refs)
    {
      id := handle;
      new;
      lib.live := lib.live + {this};
      if handle in lib.refs { lib.outside := lib.outside[handle := Held(lib.outside, handle) - 1]; }
    }

    constructor Wrap(lib: Library, handle: int)
      modifies lib`live, lib`refs
      ensures this !in old(lib.live) && lib.live == old(lib.live) + {this}
      ensures lib.View() == Do(old(lib.View()), Op.Wrap(this, handle))
      ensures id == handle
      ensures Gained(old(lib.refs), lib.refs, handle) && Kept(old(lib.refs), lib.refs, {handle})
    {
      id := handle;
      new;
      lib.live := lib.live + {this};
      if handle in lib.refs { lib.IncRef(handle); }
    }

    constructor Default(lib: Library)
      modifies lib`live
      ensures this !in old(lib.live) && lib.live == old(lib.live) + {this}
      ensures lib.View() == Do(old(lib.View()), Op.Default(this))
      ensures id == -2 && lib.refs == old(lib.refs)
    {
      id := UNINIT;
      new;
      lib.live := lib.live + {this};
    }

    constructor Copy(lib: Library, ref: Handle)
      requires ref in lib.live
      modifies lib`live, lib`refs
      ensures this !in old(lib.live) && lib.live == old(lib.live) + {this}
      ensures lib.View() == Do(old(lib.View()), Op.Copy(this, ref))
      ensures id == ref.id == old(ref.id)
      ensures Gained(old(lib.refs), lib.refs, id) && Kept(old(lib.refs), lib.refs, {id})
    {
      id := ref.id;
      new;
      lib.live := lib.live + {this};
      if id in lib.refs { lib.IncRef(id); }
    }

    constructor Move(lib: Library, ref: Handle)
      requires ref in lib.live
      modifies lib`live, ref
      ensures this !in old(lib.live) && lib.live == old(lib.live) + {this}
      ensures lib.View() == Do(old(lib.View()), Op.Move(this, ref))
      ensures id == old(ref.id) && ref.id == -2 && lib.refs == old(lib.refs)
    {
      id := ref.id;
      new;
      lib.live := lib.live + {this};
      ref.id := UNINIT;
    }

    method CopyAssign(lib: Library, ref: Handle)
      requires this in lib.live && ref in lib.live
      modifies this, lib`refs, lib`closed
      ensures lib.View() == Do(old(lib.View()), Op.CopyAssign(this, ref))
      ensures this == ref ==> id == old(id) && lib.refs == old(lib.refs)
      ensures this != ref ==> id == ref.id == old(ref.id) && Kept(old(lib.refs), lib.refs, {old(id), id})
      ensures id != old(id) ==> Lost(old(lib.refs), lib.refs, old(id)) && Gained(old(lib.refs), lib.refs, id)
      ensures id == old(id) && id in old(lib.refs) && old(lib.refs)[id] > 1 ==> lib.refs == old(lib.refs)
    {
      if this == ref { return; }
      if id in lib.refs { lib.CloseRef(id); }
      id := ref.id;
      if id in lib.refs { lib.IncRef(id); }
    }

    method MoveAssign(lib: Library, ref: Handle)
      requires this in lib.live && ref in lib.live
      modifies this, ref, lib`refs, lib`closed
      ensures lib.View() == Do(old(lib.View()), Op.MoveAssign(this, ref))
      ensures this == ref ==> id == old(id) && lib.refs == old(lib.refs)
      ensures this != ref ==> id == old(ref.id) && ref.id == -2
      ensures this != ref ==> Lost(old(lib.refs), lib.refs, old(id)) && Kept(old(lib.refs), lib.refs, {old(id)})
    {
      if this == ref { return; }
      if id in lib.refs { lib.CloseRef(id); }
      id := ref.id;
      ref.id := UNINIT;
    }

    method Destroy(lib: Library)
      requires this in lib.live
      modifies lib`live, lib`refs, lib`closed
      ensures lib.live == old(lib.live) - {this}
      ensures lib.View() == Do(old(lib.View()), Op.Destroy(this))
      ensures Lost(old(lib.refs), lib.refs, id) && Kept(old(lib.refs), lib.refs, {id})
    {
      if id in lib.refs { lib.CloseRef(id); }
      lib.live := lib.live - {this};
    }

    method Release(lib: Library) returns (h: int)
      requires this in lib.live
      modifies this, lib`outside
      ensures h == old(id) && lib.View() == Do(old(lib.View()), Op.Release(this))
      ensures id == -2
    {
      h := id;
      if id in lib.refs { lib.outside := lib.outside[id := Held(lib.outside, id) + 1]; }
      id := UNINIT;
    }
  }
}
