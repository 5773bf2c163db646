/**
 Zeroing weak references of the Objective-C runtime: an index from objects to the slots that refer
 to them weakly, kept next to the slots themselves.
 */
module WeakRefs {
  type Id = nat
  type Slot = nat

  const NIL: Id := 0

  /** The index, the contents of memory, and the objects (or blocks) that are alive. */
  datatype Weak = Weak(refs: map<Id, set<Slot>>, mem: map<Slot, Id>, live: set<Id>)

  function At(mem: map<Slot, Id>, l: Slot): Id {
    if l in mem then mem[l] else NIL
  }

  // ---------------------------------------------------------------- the operations

  function Unregister(s: Weak, l: Slot, o: Id): Weak {
    if o == NIL || o !in s.refs then s
    else if s.refs[o] - {l} == {} then s.(refs := s.refs - {o})
    else s.(refs := s.refs[o := s.refs[o] - {l}])
  }

  /** What a weak reference to `o` may hold. */
  function Checked(s: Weak, o: Id): Id {
    if o == NIL || o in s.live then o else NIL
  }

  function Initialize(s: Weak, l: Slot, o: Id): Weak {
    var v := Checked(s, o);
    var stored := s.(mem := s.mem[l := v]);
    if v == NIL then stored
    else stored.(refs := s.refs[v := (if v in s.refs then s.refs[v] else {}) + {l}])
  }

  function Store(s: Weak, l: Slot, o: Id): Weak {
    Initialize(Unregister(s, l, At(s.mem, l)), l, o)
  }

  function Load(s: Weak, l: Slot): (Id, Weak) {
    var o := At(s.mem, l);
    if o == NIL || o in s.live then (o, s)
    else
      var s' := Unregister(s, l, o);
      (NIL, s'.(mem := s'.mem[l := NIL]))
  }

  function Destroy(s: Weak, l: Slot): Weak {
    var s' := Unregister(s, l, At(s.mem, l));
    s'.(mem := s'.mem[l := NIL])
  }

  function Copy(s: Weak, to: Slot, from: Slot): Weak {
    Initialize(s, to, At(s.mem, from))
  }

  function Move(s: Weak, to: Slot, from: Slot): Weak {
    Initialize(Destroy(s, from), to, At(s.mem, from))
  }

  function Cleared(mem: map<Slot, Id>, slots: set<Slot>): map<Slot, Id> {
    mem + map l | l in slots :: NIL
  }

  function Dealloc(s: Weak, o: Id): Weak {
    if o in s.refs then Weak(s.refs - {o}, Cleared(s.mem, s.refs[o]), s.live - {o})
    else s.(live := s.live - {o})
  }

  // ---------------------------------------------------------------- the invariant

  ghost predicate Listed(s: Weak, o: Id, l: Slot) {
    o in s.refs && l in s.refs[o]
  }

  /** The index is exactly the inverse of the weak slots' contents, and has no empty set. */
  ghost predicate Indexed(s: Weak, slots: set<Slot>) {
    && (forall o, l :: Listed(s, o, l) <==> l in slots && At(s.mem, l) == o && o != NIL)
    && (forall o <- s.refs :: s.refs[o] != {})
  }

  /** No weak slot refers to an object that is gone. */
  ghost predicate NoneDangles(s: Weak, slots: set<Slot>) {
    forall l <- slots :: At(s.mem, l) == NIL || At(s.mem, l) in s.live
  }

  ghost predicate Sound(s: Weak, slots: set<Slot>) {
    Indexed(s, slots) && NoneDangles(s, slots)
  }

  /** A slot is listed for one object only. */
  lemma OneSetPerSlot(s: Weak, slots: set<Slot>, o: Id, p: Id, l: Slot)
    requires Indexed(s, slots) && Listed(s, o, l) && Listed(s, p, l)
    ensures o == p
  {
  }

  lemma UnregisterLists(s: Weak, l: Slot, o: Id, p: Id, k: Slot)
    ensures Listed(Unregister(s, l, o), p, k) <==> Listed(s, p, k) && !(o != NIL && p == o && k == l)
    ensures (forall q <- s.refs :: s.refs[q] != {}) ==>
      forall q <- Unregister(s, l, o).refs :: Unregister(s, l, o).refs[q] != {}
  {
    if o != NIL && o in s.refs {
      assert k in s.refs[o] - {l} <==> k in s.refs[o] && k != l;
    }
  }

  /** Forgetting a slot: it is no longer listed, whatever it is then made to hold. */
  lemma UnregisterIndexed(s: Weak, slots: set<Slot>, l: Slot, v: Id)
    requires Indexed(s, slots)
    ensures
      var s' := Unregister(s, l, At(s.mem, l));
      Indexed(s'.(mem := s'.mem[l := v]), slots - {l})
  {
    var o := At(s.mem, l);
    var s' := Unregister(s, l, o).(mem := s.mem[l := v]);
    forall p, k ensures Listed(s', p, k) <==> k in slots - {l} && At(s'.mem, k) == p && p != NIL {
      UnregisterLists(s, l, o, p, k);
      assert Listed(s', p, k) <==> Listed(Unregister(s, l, o), p, k);
    }
    UnregisterLists(s, l, o, NIL, l);
  }

  /** What a slot outside of the weak ones holds does not matter. */
  lemma ForeignSlot(s: Weak, slots: set<Slot>, l: Slot, v: Id)
    requires l !in slots
    ensures Indexed(s.(mem := s.mem[l := v]), slots) <==> Indexed(s, slots)
    ensures NoneDangles(s.(mem := s.mem[l := v]), slots) <==> NoneDangles(s, slots)
  {
    var s' := s.(mem := s.mem[l := v]);
    assert forall k <- slots :: At(s'.mem, k) == At(s.mem, k);
    assert forall o, k :: Listed(s', o, k) <==> Listed(s, o, k);
  }

  lemma InitializeLists(s: Weak, l: Slot, o: Id, p: Id, k: Slot)
    ensures Listed(Initialize(s, l, o), p, k) <==> Listed(s, p, k) || (Checked(s, o) != NIL && p == Checked(s, o) && k == l)
    ensures (forall q <- s.refs :: s.refs[q] != {}) ==>
      forall q <- Initialize(s, l, o).refs :: Initialize(s, l, o).refs[q] != {}
  {
    var v := Checked(s, o);
    assert v != NIL ==> l in Initialize(s, l, o).refs[v];
  }

  /** A slot is not, or not any more, listed for another object. */
  predicate IsFreeFor(s: Weak, slots: set<Slot>, l: Slot, o: Id) {
    l !in slots || At(s.mem, l) == NIL || At(s.mem, l) == Checked(s, o)
  }

  /** Initialising keeps the index exact precisely when the slot is not listed for another object. */
  lemma InitializeKeeps(s: Weak, slots: set<Slot>, l: Slot, o: Id)
    requires Sound(s, slots)
    ensures Sound(Initialize(s, l, o), slots + {l}) <==> IsFreeFor(s, slots, l, o)
  {
    var s' := Initialize(s, l, o);
    var previous, v := At(s.mem, l), Checked(s, o);
    forall p, k ensures Listed(s', p, k) <==> Listed(s, p, k) || (v != NIL && p == v && k == l) {
      InitializeLists(s, l, o, p, k);
    }
    InitializeLists(s, l, o, NIL, l);
    assert forall k :: k != l ==> At(s'.mem, k) == At(s.mem, k);
    assert At(s'.mem, l) == v;
    if !IsFreeFor(s, slots, l, o) {
      assert Listed(s, previous, l);
      assert Listed(s', previous, l) && At(s'.mem, l) != previous;
      assert !Indexed(s', slots + {l});
    }
  }

  lemma StoreKeeps(s: Weak, slots: set<Slot>, l: Slot, o: Id)
    requires Sound(s, slots)
    ensures Sound(Store(s, l, o), slots + {l})
  {
    var u := Unregister(s, l, At(s.mem, l));
    UnregisterIndexed(s, slots, l, At(s.mem, l));
    assert At(s.mem[l := At(s.mem, l)], l) == At(s.mem, l);
    ForeignSlot(u, slots - {l}, l, At(s.mem, l));
    assert Sound(u, slots - {l});
    InitializeKeeps(u, slots - {l}, l, o);
    assert slots - {l} + {l} == slots + {l};
  }

  lemma DestroyKeeps(s: Weak, slots: set<Slot>, l: Slot)
    requires Sound(s, slots)
    ensures Sound(Destroy(s, l), slots - {l})
  {
    UnregisterIndexed(s, slots, l, NIL);
    assert forall k | k != l :: At(Destroy(s, l).mem, k) == At(s.mem, k);
  }

  lemma CopyKeeps(s: Weak, slots: set<Slot>, to: Slot, from: Slot)
    requires Sound(s, slots)
    ensures Sound(Copy(s, to, from), slots + {to}) <==> IsFreeFor(s, slots, to, At(s.mem, from))
  {
    InitializeKeeps(s, slots, to, At(s.mem, from));
  }

  lemma MoveKeeps(s: Weak, slots: set<Slot>, to: Slot, from: Slot)
    requires Sound(s, slots)
    ensures Sound(Move(s, to, from), slots - {from} + {to}) <==> to == from || IsFreeFor(s, slots, to, At(s.mem, from))
  {
    DestroyKeeps(s, slots, from);
    var d := Destroy(s, from);
    InitializeKeeps(d, slots - {from}, to, At(s.mem, from));
    assert d.live == s.live;
    assert to != from ==> At(d.mem, to) == At(s.mem, to);
  }

  /** Loading from a weak slot changes nothing, and gives an object that is alive. */
  lemma LoadFindsLiving(s: Weak, slots: set<Slot>, l: Slot)
    requires Sound(s, slots) && l in slots
    ensures Load(s, l) == (At(s.mem, l), s)
    ensures Load(s, l).0 != NIL ==> Load(s, l).0 in s.live
  {
  }

  /** Loading from some other slot may clear it, but leaves the index alone. */
  lemma LoadKeeps(s: Weak, slots: set<Slot>, l: Slot)
    requires Sound(s, slots)
    ensures Sound(Load(s, l).1, slots)
  {
    if l !in slots {
      UnregisterIndexed(s, slots, l, NIL);
      assert slots - {l} == slots;
      assert forall k <- slots :: At(Load(s, l).1.mem, k) == At(s.mem, k);
    }
  }

  /** An object that goes away takes exactly the references to it with it. */
  lemma DeallocZeroes(s: Weak, slots: set<Slot>, o: Id)
    requires Sound(s, slots)
    ensures
      var s' := Dealloc(s, o);
      && Sound(s', slots)
      && (forall l <- slots :: At(s'.mem, l) == if At(s.mem, l) == o then NIL else At(s.mem, l))
      && (forall l | l !in slots :: At(s'.mem, l) == At(s.mem, l))
  {
    var s' := Dealloc(s, o);
    forall l ensures At(s'.mem, l) == if Listed(s, o, l) then NIL else At(s.mem, l) {
    }
    forall p, l ensures Listed(s', p, l) <==> Listed(s, p, l) && p != o {
    }
  }

  // ---------------------------------------------------------------- runs

  datatype Call =
    | InitWeak(l: Slot, o: Id)
    | StoreWeak(l: Slot, o: Id)
    | LoadWeak(l: Slot)
    | DestroyWeak(l: Slot)
    | CopyWeak(to: Slot, from: Slot)
    | MoveWeak(to: Slot, from: Slot)
    | Create(o: Id)
    | Deallocate(o: Id)
    | Write(l: Slot, v: Id)

  function Perform(s: Weak, c: Call): Weak {
    match c
    case InitWeak(l, o) => Initialize(s, l, o)
    case StoreWeak(l, o) => Store(s, l, o)
    case LoadWeak(l) => Load(s, l).1
    case DestroyWeak(l) => Destroy(s, l)
    case CopyWeak(to, from) => Copy(s, to, from)
    case MoveWeak(to, from) => Move(s, to, from)
    case Create(o) => s.(live := s.live + {o})
    case Deallocate(o) => Dealloc(s, o)
    case Write(l, v) => s.(mem := s.mem[l := v])
  }

  /** The slots in use as weak references. */
  function SlotsAfter(slots: set<Slot>, c: Call): set<Slot> {
    match c
    case InitWeak(l, _) => slots + {l}
    case StoreWeak(l, _) => slots + {l}
    case DestroyWeak(l) => slots - {l}
    case CopyWeak(to, _) => slots + {to}
    case MoveWeak(to, from) => slots - {from} + {to}
    case _ => slots
  }

  /** Slots are initialised when not in use, and weak slots are changed only by these functions. */
  predicate IsProper(s: Weak, slots: set<Slot>, c: Call) {
    match c
    case InitWeak(l, o) => IsFreeFor(s, slots, l, o)
    case CopyWeak(to, from) => IsFreeFor(s, slots, to, At(s.mem, from))
    case MoveWeak(to, from) => to == from || IsFreeFor(s, slots, to, At(s.mem, from))
    case Write(l, v) => l !in slots || v == At(s.mem, l)
    case _ => true
  }

  lemma WriteKeeps(s: Weak, slots: set<Slot>, l: Slot, v: Id)
    requires Sound(s, slots)
    ensures Sound(s.(mem := s.mem[l := v]), slots) <==> l !in slots || v == At(s.mem, l)
  {
    var s' := s.(mem := s.mem[l := v]);
    assert forall p, k :: Listed(s', p, k) <==> Listed(s, p, k);
    assert forall k :: At(s'.mem, k) == if k == l then v else At(s.mem, k);
    if l in slots && v != At(s.mem, l) {
      assert Listed(s', v, l) <==> Listed(s, v, l);
      assert Listed(s', At(s.mem, l), l) <==> Listed(s, At(s.mem, l), l);
    }
  }

  /** From a sound state exactly the proper calls lead to a sound one. */
  lemma PerformKeeps(s: Weak, slots: set<Slot>, c: Call)
    requires Sound(s, slots)
    ensures Sound(Perform(s, c), SlotsAfter(slots, c)) <==> IsProper(s, slots, c)
  {
    match c {
      case InitWeak(l, o) => InitializeKeeps(s, slots, l, o);
      case StoreWeak(l, o) => StoreKeeps(s, slots, l, o);
      case LoadWeak(l) => LoadKeeps(s, slots, l);
      case DestroyWeak(l) => DestroyKeeps(s, slots, l);
      case CopyWeak(to, from) => CopyKeeps(s, slots, to, from);
      case MoveWeak(to, from) => MoveKeeps(s, slots, to, from);
      case Create(o) =>
        assert forall p, l :: Listed(Perform(s, c), p, l) <==> Listed(s, p, l);
      case Deallocate(o) => DeallocZeroes(s, slots, o);
      case Write(l, v) => WriteKeeps(s, slots, l, v);
    }
  }

  /** A weak reference to an object that is gone, or to nothing, is nil. */
  function IfAlive(s: Weak, o: Id): Id {
    if o in s.live then o else NIL
  }

  /** Of all slots only `l` may differ, and it holds `v`; the same objects are alive. */
  ghost predicate Puts(s: Weak, s': Weak, l: Slot, v: Id) {
    && s'.live == s.live
    && forall k :: At(s'.mem, k) == if k == l then v else At(s.mem, k)
  }

  /**
   What each call leaves in memory and among the living objects, in any state: a slot made to refer
   to an object holds it if it is alive and nil otherwise, and every other slot is as before.
   */
  lemma CallLeaves(s: Weak, c: Call)
    ensures
      var s' := Perform(s, c);
      match c
      case InitWeak(l, o) => Puts(s, s', l, IfAlive(s, o))
      case StoreWeak(l, o) => Puts(s, s', l, IfAlive(s, o))
      case LoadWeak(l) => Puts(s, s', l, IfAlive(s, At(s.mem, l))) && Load(s, l).0 == IfAlive(s, At(s.mem, l))
      case DestroyWeak(l) => Puts(s, s', l, NIL)
      case CopyWeak(to, from) => Puts(s, s', to, IfAlive(s, At(s.mem, from)))
      case MoveWeak(to, from) =>
        && s'.live == s.live
        && forall k :: At(s'.mem, k) ==
             if k == to then IfAlive(s, At(s.mem, from)) else if k == from then NIL else At(s.mem, k)
      case Create(o) => s'.live == s.live + {o} && s'.mem == s.mem && s'.refs == s.refs
      case Deallocate(o) =>
        && s'.live == s.live - {o}
        && forall k :: At(s'.mem, k) == if Listed(s, o, k) then NIL else At(s.mem, k)
      case Write(l, v) => Puts(s, s', l, v) && s'.refs == s.refs
  {
  }

  /** The state after the first `n` calls. */
  function After(s: Weak, calls: seq<Call>, n: nat): Weak
    requires n <= |calls|
  {
    if n == 0 then s else Perform(After(s, calls, n - 1), calls[n - 1])
  }

  /** The weak slots after the first `n` calls. */
  function InUse(slots: set<Slot>, calls: seq<Call>, n: nat): set<Slot>
    requires n <= |calls|
  {
    if n == 0 then slots else SlotsAfter(InUse(slots, calls, n - 1), calls[n - 1])
  }

  ghost predicate SoundAfter(s: Weak, slots: set<Slot>, calls: seq<Call>, k: nat) {
    k <= |calls| && Sound(After(s, calls, k), InUse(slots, calls, k))
  }

  ghost predicate ProperAfter(s: Weak, slots: set<Slot>, calls: seq<Call>, k: nat) {
    k < |calls| && IsProper(After(s, calls, k), InUse(slots, calls, k), calls[k])
  }

  lemma SoundStep(s: Weak, slots: set<Slot>, calls: seq<Call>, k: nat)
    requires k < |calls| && SoundAfter(s, slots, calls, k)
    ensures SoundAfter(s, slots, calls, k + 1) <==> ProperAfter(s, slots, calls, k)
  {
    hide Sound, IsProper, Perform, SlotsAfter;
    PerformKeeps(After(s, calls, k), InUse(slots, calls, k), calls[k]);
  }

  lemma {:induction false} ProperStaysSound(s: Weak, slots: set<Slot>, calls: seq<Call>, n: nat)
    requires Sound(s, slots) && n <= |calls|
    requires forall k | 0 <= k < n :: ProperAfter(s, slots, calls, k)
    ensures SoundAfter(s, slots, calls, n)
  {
    hide ProperAfter, Sound;
    if n > 0 {
      hide SoundAfter;
      ProperStaysSound(s, slots, calls, n - 1);
      SoundStep(s, slots, calls, n - 1);
    }
  }

  /** Through a run the index agrees with the slots, and no slot dangles, exactly while all calls are proper. */
  lemma RunKeeps(s: Weak, slots: set<Slot>, calls: seq<Call>, n: nat)
    requires Sound(s, slots) && n <= |calls|
    ensures (forall k | 0 <= k <= n :: SoundAfter(s, slots, calls, k)) <==>
            (forall k | 0 <= k < n :: ProperAfter(s, slots, calls, k))
  {
    hide *;
    if forall k | 0 <= k < n :: ProperAfter(s, slots, calls, k) {
      forall k | 0 <= k <= n ensures SoundAfter(s, slots, calls, k) {
        ProperStaysSound(s, slots, calls, k);
      }
    }
    if forall k | 0 <= k <= n :: SoundAfter(s, slots, calls, k) {
      forall k | 0 <= k < n ensures ProperAfter(s, slots, calls, k) {
        SoundStep(s, slots, calls, k);
      }
    }
  }

  /** Initialising a slot in use loses the new reference when the object referred to before goes away. */
  lemma StaleEntryClearsSlot(s: Weak, slots: set<Slot>, l: Slot, o: Id)
    requires Sound(s, slots) && !IsFreeFor(s, slots, l, o) && Checked(s, o) != NIL
    ensures
      var before := At(s.mem, l);
      var s' := Dealloc(Initialize(s, l, o), before);
      At(Initialize(s, l, o).mem, l) == o && o in s'.live && At(s'.mem, l) == NIL
  {
    var before := At(s.mem, l);
    assert Listed(s, before, l);
    InitializeLists(s, l, o, before, l);
  }

  // ---------------------------------------------------------------- the runtime object

  class ObjC {
    var weakReferences: map<Id, set<Slot>>
    var mem: map<Slot, Id>
    var live: set<Id>

    constructor (s: Weak)
      ensures View() == s
    {
      weakReferences, mem, live := s.refs, s.mem, s.live;
    }

    function View(): Weak
      reads this
    {
      Weak(weakReferences, mem, live)
    }

    method UnregisterWeakReference(location: Slot, target: Id)
      modifies `weakReferences
      ensures View() == Unregister(old(View()), location, target)
    {
      if target == NIL {
        return;
      }
      var removeObjectEntry := false;
      if target in weakReferences {
        weakReferences := weakReferences[target := weakReferences[target] - {location}];
        removeObjectEntry := weakReferences[target] == {};
      }
      if removeObjectEntry {
        weakReferences := weakReferences - {target};
        assert weakReferences == old(weakReferences) - {target};
      }
    }

    method InitializeWeakReference(location: Slot, target: Id) returns (stored: Id)
      modifies `weakReferences, `mem
      ensures stored == Checked(old(View()), target) && View() == Initialize(old(View()), location, target)
    {
      var isLiveObject := target == NIL || target in live;
      stored := if isLiveObject then target else NIL;
      mem := mem[location := stored];
      if stored != NIL {
        if stored !in weakReferences {
          weakReferences := weakReferences[stored := {}];
        }
        weakReferences := weakReferences[stored := weakReferences[stored] + {location}];
        assert weakReferences == Initialize(old(View()), location, target).refs;
      }
    }

    method ObjcStoreWeak(location: Slot, target: Id) returns (stored: Id)
      modifies `weakReferences, `mem
      ensures View() == Store(old(View()), location, target) && stored == Checked(old(View()), target)
    {
      var oldObject := At(mem, location);
      UnregisterWeakReference(location, oldObject);
      stored := InitializeWeakReference(location, target);
    }

    method ObjcLoadWeakRetained(location: Slot) returns (loaded: Id)
      modifies `weakReferences, `mem
      ensures (loaded, View()) == Load(old(View()), location)
    {
      loaded := At(mem, location);
      if loaded != NIL && loaded !in live {
        UnregisterWeakReference(location, loaded);
        mem := mem[location := NIL];
        loaded := NIL;
      }
    }

    method ObjcDestroyWeak(location: Slot)
      modifies `weakReferences, `mem
      ensures View() == Destroy(old(View()), location)
    {
      UnregisterWeakReference(location, At(mem, location));
      mem := mem[location := NIL];
    }

    method ObjcCopyWeak(destination: Slot, source: Slot)
      modifies `weakReferences, `mem
      ensures View() == Copy(old(View()), destination, source)
    {
      var _ := InitializeWeakReference(destination, At(mem, source));
    }

    method ObjcMoveWeak(destination: Slot, source: Slot)
      modifies `weakReferences, `mem
      ensures View() == Move(old(View()), destination, source)
    {
      var target := At(mem, source);
      UnregisterWeakReference(source, target);
      mem := mem[source := NIL];
      var _ := InitializeWeakReference(destination, target);
    }

    /** Clears the slots in an arbitrary order, then forgets the object; panics if there is none. */
    method DeallocObject(target: Id) returns (ok: bool)
      modifies this
      ensures ok <==> target in old(live)
      ensures View() == Dealloc(old(View()), target)
    {
      if target in weakReferences {
        var all := weakReferences[target];
        var left := all;
        weakReferences := weakReferences - {target};
        while left != {}
          invariant left <= all && live == old(live) && weakReferences == old(weakReferences) - {target}
          invariant mem == Cleared(old(mem), all - left)
        {
          var location :| location in left;
          left := left - {location};
          mem := mem[location := NIL];
        }
        assert all - left == all;
      }
      if target !in live {
        assert live - {target} == live;
        return false;
      }
      live := live - {target};
      return true;
    }
  }
}
