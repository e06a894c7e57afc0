/** Intrusive reference counting: objects, their count cells, and the handles to them. */
module RefCounting {
  import opened Graphs

  datatype Option<T> = None | Some(value: T)

  // A strong handle is a variable of the program or a field of an object.
  datatype Slot = Handle(id: nat) | Field(owner: nat, index: nat)

  type Slots = map<Slot, Option<nat>>

  ghost function Holders<K>(m: map<K, Option<nat>>, x: nat): set<K> {
    set k | k in m && m[k] == Some(x)
  }

  lemma HoldersTaken<K>(m: map<K, Option<nat>>, k: K, x: nat, y: nat)
    requires k in m && m[k] == Some(x)
    ensures |Holders(m[k := None], y)| == |Holders(m, y)| - if y == x then 1 else 0
  {
    assert Holders(m[k := None], x) == Holders(m, x) - {k};
    if y != x {
      assert Holders(m[k := None], y) == Holders(m, y);
    }
  }

  lemma HoldersGiven<K>(m: map<K, Option<nat>>, k: K, x: nat, y: nat)
    requires k in m ==> m[k] == None
    ensures |Holders(m[k := Some(x)], y)| == |Holders(m, y)| + if y == x then 1 else 0
  {
    assert k !in Holders(m, x);
    assert Holders(m[k := Some(x)], x) == Holders(m, x) + {k};
    if y != x {
      assert Holders(m[k := Some(x)], y) == Holders(m, y);
    }
  }

  lemma HoldersOfNull<K>(m: map<K, Option<nat>>, k: K, y: nat)
    requires k in m ==> m[k] == None
    ensures Holders(m[k := None], y) == Holders(m, y) == Holders(m - {k}, y)
  {
  }

  /** The fields whose objects still exist, and all variables. */
  function Kept(slots: Slots, alive: set<nat>): Slots {
    map s | s in slots && (s.Handle? || s.owner in alive) :: slots[s]
  }

  datatype State = State(
    next: nat,                 // objects created so far are 0, 1, ..., next - 1
    alive: set<nat>,           // objects that are not deleted
    refs: map<nat, int>,       // the count cells that exist: strong count
    weak: map<nat, int>,       // ... and weak count
    slots: Slots,
    size: map<nat, nat>,       // number of fields of each object
    weakHandles: map<nat, Option<nat>>,
    floating: set<nat>,        // objects never owned, or detached
    dying: set<nat>,           // objects whose fields are being released
    destroyed: multiset<nat>,  // objects deleted
    freed: multiset<nat>)      // cells freed

  /** The strong count is the number of handles; `pending` has just lost one that is still
      counted. Only objects that are being deleted or that nobody ever owned have none. */
  ghost predicate CountedIn(alive: set<nat>, refs: map<nat, int>, slots: Slots, floating: set<nat>, dying: set<nat>,
                            pending: Option<nat>)
  {
    && (forall x <- alive :: x in refs && refs[x] == |Holders(slots, x)| + if pending == Some(x) then 1 else 0)
    && (forall x <- alive :: refs[x] == 0 <==> x in floating || x in dying)
    && floating !! dying && floating <= alive && dying <= alive
  }

  /** Handles hold objects that exist, and the fields that exist are those of such objects. */
  ghost predicate SlotsIn(next: nat, alive: set<nat>, slots: Slots, size: map<nat, nat>, dying: set<nat>) {
    && (forall k <- slots :: slots[k].Some? ==> slots[k].value in alive)
    && (forall k <- slots :: k.Field? ==> k.owner in alive && k.owner in size && k.index < size[k.owner])
    && (forall x: nat :: x in alive && x !in dying ==> FieldsIn(slots, x, if x in size then size[x] else 0))
    && (forall x <- alive :: x < next && x in size)
  }

  ghost predicate FieldsIn(slots: Slots, x: nat, n: nat) {
    forall i: nat :: i < n ==> Field(x, i) in slots
  }

  /** A cell exists as long as its object or a weak handle does, and is freed once after that. */
  ghost predicate CellsIn(next: nat, alive: set<nat>, refs: map<nat, int>, weak: map<nat, int>,
                          weakHandles: map<nat, Option<nat>>, destroyed: multiset<nat>, freed: multiset<nat>)
  {
    && refs.Keys == weak.Keys
    && (forall x: nat :: x in refs <==> x in alive || (x < next && Holders(weakHandles, x) != {}))
    && (forall x <- refs :: x !in alive ==> refs[x] == -1)
    && (forall x <- weak :: weak[x] == |Holders(weakHandles, x)| + if x in alive then 1 else 0)
    && (forall w <- weakHandles :: weakHandles[w].Some? ==> weakHandles[w].value < next)
    && (forall x: nat :: destroyed[x] == if x < next && x !in alive then 1 else 0)
    && (forall x: nat :: freed[x] == if x < next && x !in refs then 1 else 0)
  }

  ghost predicate Counted(s: State, pending: Option<nat>) {
    CountedIn(s.alive, s.refs, s.slots, s.floating, s.dying, pending)
  }

  ghost predicate SlotsExist(s: State) {
    SlotsIn(s.next, s.alive, s.slots, s.size, s.dying)
  }

  function SizeOf(s: State, x: nat): nat {
    if x in s.size then s.size[x] else 0
  }

  ghost predicate HasFields(s: State, x: nat, n: nat) {
    FieldsIn(s.slots, x, n)
  }

  ghost predicate CellsExist(s: State) {
    CellsIn(s.next, s.alive, s.refs, s.weak, s.weakHandles, s.destroyed, s.freed)
  }

  ghost predicate Inv(s: State, pending: Option<nat>) {
    Counted(s, pending) && SlotsExist(s) && CellsExist(s)
  }

  // One step each of what a release does.

  /** Nothing that the cells depend on has changed but the strong counts of existing objects. */
  lemma CellsKept(s: State, t: State)
    requires CellsExist(s) && t.next == s.next && t.alive == s.alive && t.weak == s.weak && t.weakHandles == s.weakHandles
    requires t.destroyed == s.destroyed && t.freed == s.freed
    requires t.refs.Keys == s.refs.Keys && forall x <- s.refs :: x !in s.alive ==> t.refs[x] == s.refs[x]
    ensures CellsExist(t)
  {
    hide Holders;
  }

  function Decrement(s: State, x: nat): State
    requires x in s.refs
  {
    s.(refs := s.refs[x := s.refs[x] - 1])
  }

  lemma CountedSlots(s: State, pending: Option<nat>, x: nat)
    requires Counted(s, pending) && x in s.alive
    ensures x in s.refs && s.refs[x] == |Holders(s.slots, x)| + if pending == Some(x) then 1 else 0
    ensures s.refs[x] == 0 <==> x in s.floating || x in s.dying
  {
  }

  lemma ReleaseShared(s: State, x: nat)
    requires Inv(s, Some(x)) && x in s.alive && s.refs[x] != 1
    ensures Inv(Decrement(s, x), None) && s.refs[x] > 1
  {
    hide Holders, CellsExist, SlotsExist;
    CellsKept(s, Decrement(s, x));
    SlotsKept(s, Decrement(s, x));
    CountedSlots(s, Some(x), x);
    CountDecrement(s, x);
  }

  lemma CountDecrement(s: State, x: nat)
    requires Counted(s, Some(x)) && x in s.alive && s.refs[x] > 1
    ensures Counted(Decrement(s, x), None)
  {
    hide Holders;
  }

  lemma SlotsKept(s: State, t: State)
    requires SlotsExist(s) && t.next == s.next && t.alive == s.alive && t.slots == s.slots && t.size == s.size && s.dying <= t.dying
    ensures SlotsExist(t)
  {
    forall x: nat | x in t.alive && x !in t.dying ensures HasFields(t, x, SizeOf(t, x)) {
      assert HasFields(s, x, SizeOf(s, x));
    }
  }

  function StartDying(s: State, x: nat): State
    requires x in s.refs
  {
    Decrement(s, x).(dying := s.dying + {x})
  }

  lemma ReleaseLast(s: State, x: nat)
    requires Inv(s, Some(x)) && x in s.alive && s.refs[x] == 1
    ensures Inv(StartDying(s, x), None)
    ensures HasFields(StartDying(s, x), x, SizeOf(s, x)) && x !in s.floating && x !in s.dying
  {
    hide Holders, CellsExist, SlotsExist;
    var t := StartDying(s, x);
    CellsKept(s, t);
    SlotsKept(s, t);
    CountDying(s, x);
    FieldsOf(s, x);
    assert HasFields(s, x, SizeOf(s, x));
  }

  lemma FieldsOf(s: State, x: nat)
    requires SlotsExist(s) && x in s.alive && x !in s.dying
    ensures x in s.size && x < s.next && HasFields(s, x, SizeOf(s, x))
  {
  }

  lemma CountDying(s: State, x: nat)
    requires Counted(s, Some(x)) && x in s.alive && s.refs[x] == 1
    ensures Counted(StartDying(s, x), None) && x !in s.floating && x !in s.dying
  {
    hide Holders;
  }

  function ClearField(s: State, x: nat, i: nat): State {
    s.(slots := s.slots - {Field(x, i)})
  }

  lemma FieldReleased(s: State, x: nat, i: nat)
    requires Inv(s, None) && x in s.dying && HasFields(s, x, i + 1)
    ensures Field(x, i) in s.slots && HasFields(ClearField(s, x, i), x, i)
    ensures Inv(ClearField(s, x, i), s.slots[Field(x, i)])
    ensures var c := s.slots[Field(x, i)]; c.Some? ==> c.value in s.alive && c.value !in s.dying
  {
    hide Holders, CellsExist, SlotsExist, Counted;
    assert Field(x, i) in s.slots;
    CellsKept(s, ClearField(s, x, i));
    SlotsCleared(s, x, i);
    CountCleared(s, x, i);
  }

  lemma SlotsCleared(s: State, x: nat, i: nat)
    requires SlotsExist(s) && x in s.dying
    ensures SlotsExist(ClearField(s, x, i))
    ensures Field(x, i) in s.slots ==> var c := s.slots[Field(x, i)]; c.Some? ==> c.value in s.alive
  {
    var t := ClearField(s, x, i);
    forall y: nat | y in t.alive && y !in t.dying ensures HasFields(t, y, SizeOf(t, y)) {
      assert HasFields(s, y, SizeOf(s, y));
    }
  }

  lemma CountCleared(s: State, x: nat, i: nat)
    requires Counted(s, None) && Field(x, i) in s.slots
    ensures Counted(ClearField(s, x, i), s.slots[Field(x, i)])
    ensures var c := s.slots[Field(x, i)]; c.Some? ==> c.value !in s.dying
  {
    var k := Field(x, i);
    var c := s.slots[k];
    var t := ClearField(s, x, i);
    forall y: nat ensures |Holders(t.slots, y)| == |Holders(s.slots, y)| - if c == Some(y) then 1 else 0 {
      assert Holders(t.slots, y) == Holders(s.slots, y) - {k};
    }
    if c.Some? {
      assert k in Holders(s.slots, c.value);
    }
  }

  /** The base class destructor: the cell is marked as expired and, if nobody watches, freed. */
  function Expire(s: State, x: nat): State
    requires x in s.refs && x in s.weak
  {
    var w := s.weak[x] - 1;
    var t := s.(alive := s.alive - {x}, dying := s.dying - {x}, destroyed := s.destroyed + multiset{x});
    if w == 0 then t.(refs := s.refs - {x}, weak := s.weak - {x}, freed := s.freed + multiset{x})
    else t.(refs := s.refs[x := -1], weak := s.weak[x := w])
  }

  lemma ExpireKeeps(s: State, x: nat)
    requires x in s.refs && x in s.weak
    ensures Expire(s, x).alive == s.alive - {x}
  {
  }

  lemma Expired(s: State, x: nat)
    requires Inv(s, None) && x in s.dying && forall i: nat :: Field(x, i) !in s.slots
    ensures x in s.refs && x in s.weak && Inv(Expire(s, x), None)
  {
    hide Holders, CellsExist, SlotsExist, Counted;
    CountExpired(s, x);
    AliveBelow(s, x);
    SlotsExpired(s, x);
    CellsExpired(s, x);
  }

  lemma CellOf(s: State, x: nat)
    requires CellsExist(s) && x in s.alive
    ensures x in s.refs && x in s.weak && s.weak[x] == |Holders(s.weakHandles, x)| + 1
  {
  }

  lemma CountExpired(s: State, x: nat)
    requires Counted(s, None) && CellsExist(s) && x in s.dying
    ensures x in s.alive && x in s.refs && x in s.weak && s.refs[x] == 0 == |Holders(s.slots, x)| && Counted(Expire(s, x), None)
  {
    CountWithout(s.alive, s.refs, s.slots, s.floating, s.dying, x);
    CellOf(s, x);
    hide CountedIn, CellsIn, Holders;
  }

  lemma CountWithout(alive: set<nat>, refs: map<nat, int>, slots: Slots, floating: set<nat>, dying: set<nat>, x: nat)
    requires CountedIn(alive, refs, slots, floating, dying, None) && x in dying
    ensures x in alive && x in refs && refs[x] == 0 == |Holders(slots, x)|
    ensures CountedIn(alive - {x}, refs - {x}, slots, floating, dying - {x}, None)
    ensures CountedIn(alive - {x}, refs[x := -1], slots, floating, dying - {x}, None)
  {
    hide Holders;
  }

  lemma SlotsExpired(s: State, x: nat)
    requires SlotsExist(s) && x in s.alive && x in s.refs && x in s.weak && |Holders(s.slots, x)| == 0
    requires forall i: nat :: Field(x, i) !in s.slots
    ensures SlotsExist(Expire(s, x))
  {
    var t := Expire(s, x);
    forall k | k in s.slots ensures s.slots[k] != Some(x) {
      assert k !in Holders(s.slots, x);
    }
    hide Holders;
    forall y: nat | y in t.alive && y !in t.dying ensures HasFields(t, y, SizeOf(t, y)) {
      assert HasFields(s, y, SizeOf(s, y));
    }
    forall k | k in t.slots && k.Field? ensures k.owner != x {
      assert k == Field(x, k.index) || k.owner != x;
    }
  }

  lemma CellsExpired(s: State, x: nat)
    requires CellsExist(s) && x in s.alive && x < s.next && x in s.refs && x in s.weak
    ensures CellsExist(Expire(s, x))
  {
    NoHolders(s.weakHandles, x);
    CellExpired(s.next, s.alive, s.refs, s.weak, s.weakHandles, s.destroyed, s.freed, x);
    hide CellsIn, Holders;
  }

  lemma CellExpired(next: nat, alive: set<nat>, refs: map<nat, int>, weak: map<nat, int>,
                    watchers: map<nat, Option<nat>>, destroyed: multiset<nat>, freed: multiset<nat>, x: nat)
    requires CellsIn(next, alive, refs, weak, watchers, destroyed, freed) && x in alive && x < next
    requires |Holders(watchers, x)| == 0 <==> Holders(watchers, x) == {}
    ensures x in weak && x in refs
    ensures if weak[x] == 1
            then CellsIn(next, alive - {x}, refs - {x}, weak - {x}, watchers, destroyed + multiset{x}, freed + multiset{x})
            else CellsIn(next, alive - {x}, refs[x := -1], weak[x := weak[x] - 1], watchers, destroyed + multiset{x}, freed)
  {
    hide Holders;
    forall y: nat ensures (destroyed + multiset{x})[y] == if y < next && y !in alive - {x} then 1 else 0 {
      assert destroyed[y] == if y < next && y !in alive then 1 else 0;
    }
    if weak[x] == 1 {
      forall y: nat ensures (freed + multiset{x})[y] == if y < next && y !in refs - {x} then 1 else 0 {
        assert freed[y] == if y < next && y !in refs then 1 else 0;
      }
    } else {
      assert forall y: nat :: freed[y] == if y < next && y !in refs[x := -1] then 1 else 0;
    }
  }

  lemma NoHolders<K>(m: map<K, Option<nat>>, x: nat)
    ensures |Holders(m, x)| == 0 <==> Holders(m, x) == {}
  {
  }

  lemma AliveBelow(s: State, x: nat)
    requires SlotsExist(s) && x in s.alive
    ensures x < s.next && x in s.size
  {
  }

  ghost predicate Valid(s: State) {
    Inv(s, None) && s.dying == {}
  }

  /** A release deletes objects, with their fields; everything else about handles stays. */
  ghost predicate Released(s: State, t: State) {
    && t.next == s.next && t.size == s.size && t.weakHandles == s.weakHandles
    && t.floating == s.floating && t.dying == s.dying
    && t.alive <= s.alive && t.slots == Kept(s.slots, t.alive)
  }

  /** The same for a release by assignment of `target` to the handle `k`. */
  ghost predicate Assigned(s: State, k: Slot, target: Option<nat>, t: State) {
    && t.next == s.next && t.size == s.size && t.weakHandles == s.weakHandles && t.dying == s.dying
    && t.floating == s.floating - (if target.Some? then {target.value} else {})
    && t.alive <= s.alive && t.slots == Kept(s.slots, t.alive)[k := target]
  }

  /** Exactly the objects that something sustains once `k` is cleared still exist. */
  ghost predicate SustainedSurvive(s: State, k: Slot, t: State) {
    forall x: nat :: x in t.alive <==> Sustained(SetNull(s, k), x)
  }

  /** The object that the handle is part of outlives its release. */
  ghost predicate OwnerSurvives(s: State, k: Slot) {
    k.Field? ==> Sustained(SetNull(s, k), k.owner)
  }

  // A release deletes objects in an order in which owners come first.

  ghost predicate Ordered(slots: Slots, dying: set<nat>, order: seq<nat>) {
    forall i, k :: 0 <= i < |order| && k in slots && slots[k] == Some(order[i]) ==>
      k.Field? && (k.owner in order[..i] || k.owner in dying)
  }

  ghost predicate Deletes(before: set<nat>, after: set<nat>, order: seq<nat>) {
    forall x: nat :: x in order <==> x in before && x !in after
  }

  lemma OrderedNothing(slots: Slots, dying: set<nat>, alive: set<nat>)
    ensures Ordered(slots, dying, []) && Deletes(alive, alive, [])
  {
  }

  /** The last handle to `x` is gone, so nothing holds it. */
  lemma OrderedFirst(s: State, x: nat, order: seq<nat>)
    requires Inv(s, Some(x)) && x in s.alive && s.refs[x] == 1
    requires Ordered(s.slots, s.dying + {x}, order)
    ensures Ordered(s.slots, s.dying, [x] + order)
  {
    hide CellsIn, SlotsIn;
    var all := [x] + order;
    NoHolders(s.slots, x);
    forall k | k in s.slots ensures s.slots[k] != Some(x) {
      assert k !in Holders(s.slots, x);
    }
    hide Holders;
    forall i, k | 0 <= i < |all| && k in s.slots && s.slots[k] == Some(all[i])
      ensures k.Field? && (k.owner in all[..i] || k.owner in s.dying)
    {
      if i > 0 {
        assert s.slots[k] == Some(order[i - 1]);
        assert all[..i] == [x] + order[..i - 1];
      }
    }
  }

  lemma DeletesFirst(before: set<nat>, after: set<nat>, x: nat, order: seq<nat>)
    requires Deletes(before - {x}, after, order) && x in before && x !in after
    ensures Deletes(before, after, [x] + order)
  {
  }

  lemma OrderedField(slots: Slots, dying: set<nat>, x: nat, i: nat, order: seq<nat>)
    requires Ordered(slots - {Field(x, i)}, dying, order) && x in dying
    ensures Ordered(slots, dying, order)
  {
  }

  /** What the next field deletes comes behind what the fields after it have deleted. */
  lemma OrderedMore(s: State, t: State, x: nat, i: nat, order: seq<nat>, more: seq<nat>)
    requires SlotsExist(s) && Deleting(s, t, x, i) && x in s.dying && Deletes(s.alive, t.alive, order)
    requires Ordered(s.slots, s.dying, order) && Ordered(t.slots, s.dying, more)
    ensures Ordered(s.slots, s.dying, order + more)
  {
    var all := order + more;
    forall n, k | 0 <= n < |all| && k in s.slots && s.slots[k] == Some(all[n])
      ensures k.Field? && (k.owner in all[..n] || k.owner in s.dying)
    {
      if n < |order| {
        assert all[..n] == order[..n];
      } else {
        assert all[..n] == order + more[..n - |order|];
        if k in t.slots {
          assert t.slots[k] == Some(more[n - |order|]);
        } else if k.Field? && k.owner !in t.alive {
          assert k.owner in order;
        }
      }
    }
  }

  lemma DeletesOther(before: set<nat>, after: set<nat>, x: nat, order: seq<nat>)
    requires Deletes(before, after, order) && x in after
    ensures Deletes(before - {x}, after - {x}, order)
  {
  }

  lemma DeletesMore(a: set<nat>, b: set<nat>, c: set<nat>, order: seq<nat>, more: seq<nat>)
    requires Deletes(a, b, order) && Deletes(b, c, more) && c <= b <= a
    ensures Deletes(a, c, order + more)
  {
  }

  lemma ReleasedNothing(s: State, t: State)
    requires SlotsExist(s) && t.next == s.next && t.size == s.size && t.weakHandles == s.weakHandles
    requires t.floating == s.floating && t.dying == s.dying && t.alive == s.alive && t.slots == s.slots
    ensures Released(s, t)
  {
  }

  /** The fields of `x` from `i` on have been released. */
  ghost predicate Deleting(s: State, t: State, x: nat, i: nat) {
    && t.next == s.next && t.size == s.size && t.weakHandles == s.weakHandles
    && t.floating == s.floating && t.dying == s.dying
    && t.alive <= s.alive
    && (forall k :: k in t.slots <==> k in Kept(s.slots, t.alive) && !(k.Field? && k.owner == x && k.index >= i))
    && (forall k <- t.slots :: t.slots[k] == s.slots[k])
  }

  lemma DeletingStarts(s: State, x: nat)
    requires SlotsExist(s)
    ensures Deleting(s, s, x, SizeOf(s, x))
  {
  }

  lemma DeletingField(s: State, t: State, x: nat, i: nat)
    requires Deleting(s, t, x, i + 1)
    ensures Deleting(s, ClearField(t, x, i), x, i)
  {
  }

  lemma DeletingReleased(s: State, t: State, u: State, x: nat, i: nat)
    requires Deleting(s, t, x, i) && Released(t, u)
    ensures Deleting(s, u, x, i)
  {
  }

  lemma DeletingEnds(s: State, t: State, x: nat)
    requires Deleting(s, t, x, 0) && x in t.refs && x in t.weak
    ensures var u := Expire(t, x);
      Released(s.(dying := s.dying - {x}), u) && x !in u.alive && forall i: nat :: Field(x, i) !in t.slots
  {
    forall i: nat ensures Field(x, i) !in t.slots {
      assert Field(x, i).Field?;
    }
  }

  // The other operations.

  function NewFields(x: nat, n: nat): Slots {
    map i: nat | i < n :: Field(x, i) := None
  }

  function Create(s: State, n: nat): State {
    var x := s.next;
    s.(next := x + 1, alive := s.alive + {x}, refs := s.refs[x := 0], weak := s.weak[x := 1],
       slots := s.slots + NewFields(x, n), size := s.size[x := n], floating := s.floating + {x})
  }

  lemma Created(s: State, n: nat)
    requires Inv(s, None)
    ensures Inv(Create(s, n), None)
  {
    hide Holders, CellsExist, SlotsExist, Counted;
    NothingAt(s, s.next);
    CellsCreated(s, n);
    SlotsCreated(s, n);
    CountCreated(s, n);
  }

  /** There are `n` more fields, which hold nothing. */
  ghost predicate WithEmptyFields(was: Slots, now: Slots, x: nat, n: nat) {
    && (forall k :: k in now <==> k in was || (k.Field? && k.owner == x && k.index < n))
    && (forall k <- was :: now[k] == was[k])
    && (forall i: nat :: i < n ==> Field(x, i) !in was && Field(x, i) in now && now[Field(x, i)] == None)
  }

  lemma CreatedIsEmpty(s: State, n: nat)
    requires Inv(s, None)
    ensures var t := Create(s, n); s.next !in s.alive && t.refs[s.next] == 0 && WithEmptyFields(s.slots, t.slots, s.next, n)
  {
    NothingAt(s, s.next);
    hide Inv;
    forall k ensures k in NewFields(s.next, n) <==> k.Field? && k.owner == s.next && k.index < n {
      if k.Field? && k.owner == s.next {
        assert k == Field(s.next, k.index);
      }
    }
  }

  lemma NothingAt(s: State, x: nat)
    requires SlotsExist(s) && CellsExist(s) && x >= s.next
    ensures x !in s.alive && x !in s.refs && x !in s.weak
    ensures Holders(s.slots, x) == {} && Holders(s.weakHandles, x) == {}
    ensures forall i: nat :: Field(x, i) !in s.slots
  {
    forall i: nat ensures Field(x, i) !in s.slots {
      assert Field(x, i).owner == x;
    }
  }

  lemma CellsCreated(s: State, n: nat)
    requires CellsExist(s) && s.next !in s.alive && s.next !in s.refs && Holders(s.weakHandles, s.next) == {}
    ensures CellsExist(Create(s, n))
  {
    hide Holders;
    var t := Create(s, n);
    forall y: nat ensures t.destroyed[y] == if y < t.next && y !in t.alive then 1 else 0 {
      assert s.destroyed[y] == if y < s.next && y !in s.alive then 1 else 0;
    }
    forall y: nat ensures t.freed[y] == if y < t.next && y !in t.refs then 1 else 0 {
      assert s.freed[y] == if y < s.next && y !in s.refs then 1 else 0;
    }
  }

  lemma SlotsCreated(s: State, n: nat)
    requires SlotsExist(s) && s.next !in s.alive
    ensures SlotsExist(Create(s, n))
  {
    var t := Create(s, n);
    forall y: nat | y in t.alive && y !in t.dying ensures HasFields(t, y, SizeOf(t, y)) {
      if y != s.next {
        assert HasFields(s, y, SizeOf(s, y));
      }
    }
  }

  lemma CountCreated(s: State, n: nat)
    requires Counted(s, None) && s.next !in s.alive && Holders(s.slots, s.next) == {}
    requires forall i: nat :: Field(s.next, i) !in s.slots
    ensures Counted(Create(s, n), None)
  {
    var t := Create(s, n);
    forall y: nat ensures Holders(t.slots, y) == Holders(s.slots, y) {
      forall k | k in s.slots ensures k in t.slots && t.slots[k] == s.slots[k] {
        assert k !in NewFields(s.next, n);
      }
    }
    hide Holders;
  }

  predicate CanHold(s: State, k: Slot) {
    && (k.Field? ==> k.owner in s.alive && k.owner !in s.dying && k.index < SizeOf(s, k.owner))
    && (k in s.slots ==> s.slots[k] == None)
  }

  function Acquire(s: State, k: Slot, x: nat): State
    requires x in s.refs
  {
    s.(slots := s.slots[k := Some(x)], refs := s.refs[x := s.refs[x] + 1], floating := s.floating - {x})
  }

  lemma Acquired(s: State, k: Slot, x: nat)
    requires Inv(s, None) && CanHold(s, k) && x in s.alive && x !in s.dying
    ensures x in s.refs && s.refs[x] >= 0 && Inv(Acquire(s, k, x), None)
  {
    hide Holders, CellsExist, SlotsExist, Counted;
    CountedSlots(s, None, x);
    CellsKept(s, Acquire(s, k, x));
    SlotsSet(s, Acquire(s, k, x), k);
    CountAcquired(s, k, x);
  }

  lemma SlotsSet(s: State, t: State, k: Slot)
    requires SlotsExist(s) && t.alive == s.alive && t.next == s.next && t.size == s.size && t.dying == s.dying
    requires k.Field? ==> k.owner in s.alive && k.owner in s.size && k.index < s.size[k.owner]
    requires k in t.slots && (t.slots[k].Some? ==> t.slots[k].value in s.alive) && t.slots == s.slots[k := t.slots[k]]
    ensures SlotsExist(t)
  {
    forall y: nat | y in t.alive && y !in t.dying ensures HasFields(t, y, SizeOf(t, y)) {
      assert HasFields(s, y, SizeOf(s, y));
    }
  }

  lemma CountAcquired(s: State, k: Slot, x: nat)
    requires Counted(s, None) && x in s.alive && x !in s.dying && x in s.refs && (k in s.slots ==> s.slots[k] == None)
    ensures Counted(Acquire(s, k, x), None)
  {
    forall y: nat ensures |Holders(s.slots[k := Some(x)], y)| == |Holders(s.slots, y)| + if y == x then 1 else 0 {
      HoldersGiven(s.slots, k, x, y);
    }
    hide Holders;
  }

  function SetNull(s: State, k: Slot): State {
    s.(slots := s.slots[k := None])
  }

  lemma SlotNulled(s: State, k: Slot)
    requires Inv(s, None) && k in s.slots
    ensures Inv(SetNull(s, k), s.slots[k])
    ensures s.slots[k].Some? ==> s.slots[k].value in s.alive && s.slots[k].value !in s.dying
  {
    hide Holders, CellsExist, SlotsExist, Counted;
    FieldInside(s, k);
    CellsKept(s, SetNull(s, k));
    SlotsSet(s, SetNull(s, k), k);
    CountNulled(s, k);
  }

  lemma FieldInside(s: State, k: Slot)
    requires SlotsExist(s) && k in s.slots
    ensures k.Field? ==> k.owner in s.alive && k.owner in s.size && k.index < s.size[k.owner]
    ensures s.slots[k].Some? ==> s.slots[k].value in s.alive
  {
  }

  lemma CountNulled(s: State, k: Slot)
    requires Counted(s, None) && k in s.slots
    ensures Counted(SetNull(s, k), s.slots[k])
    ensures s.slots[k].Some? ==> s.slots[k].value !in s.dying
  {
    if s.slots[k].Some? {
      var x := s.slots[k].value;
      assert k in Holders(s.slots, x);
      forall y: nat ensures |Holders(s.slots[k := None], y)| == |Holders(s.slots, y)| - if y == x then 1 else 0 {
        HoldersTaken(s.slots, k, x, y);
      }
    } else {
      assert s.slots[k := None] == s.slots;
    }
    hide Holders;
  }

  lemma HandleAdded(s: State, id: nat)
    requires Inv(s, None) && Handle(id) !in s.slots
    ensures Inv(SetNull(s, Handle(id)), None)
  {
    CountOther(s.alive, s.refs, s.slots, s.slots[Handle(id) := None], s.floating, s.dying, Handle(id));
    hide CountedIn, CellsIn, SlotsIn;
    SlotsSet(s, SetNull(s, Handle(id)), Handle(id));
  }

  lemma CountOther(alive: set<nat>, refs: map<nat, int>, slots: Slots, now: Slots, floating: set<nat>, dying: set<nat>, k: Slot)
    requires CountedIn(alive, refs, slots, floating, dying, None)
    requires k in slots ==> slots[k] == None
    requires now == slots[k := None] || now == slots - {k}
    ensures CountedIn(alive, refs, now, floating, dying, None)
  {
    forall y: nat ensures Holders(now, y) == Holders(slots, y) {
      HoldersOfNull(slots, k, y);
    }
    hide Holders;
  }

  lemma HandleRemoved(s: State, id: nat)
    requires Inv(s, None) && Handle(id) in s.slots && s.slots[Handle(id)] == None
    ensures Inv(s.(slots := s.slots - {Handle(id)}), None)
  {
    CountOther(s.alive, s.refs, s.slots, s.slots - {Handle(id)}, s.floating, s.dying, Handle(id));
    SlotRemoved(s.next, s.alive, s.slots, s.size, s.dying, id);
    hide CountedIn, CellsIn, SlotsIn;
  }

  lemma SlotRemoved(next: nat, alive: set<nat>, slots: Slots, size: map<nat, nat>, dying: set<nat>, id: nat)
    requires SlotsIn(next, alive, slots, size, dying)
    ensures SlotsIn(next, alive, slots - {Handle(id)}, size, dying)
  {
    forall y: nat | y in alive && y !in dying ensures FieldsIn(slots - {Handle(id)}, y, if y in size then size[y] else 0) {
      assert FieldsIn(slots, y, if y in size then size[y] else 0);
    }
  }

  function Detach(s: State, k: Slot, x: nat): State
    requires x in s.refs
  {
    s.(slots := s.slots[k := None], refs := s.refs[x := s.refs[x] - 1],
       floating := if s.refs[x] == 1 then s.floating + {x} else s.floating)
  }

  lemma Detached(s: State, k: Slot, x: nat)
    requires Inv(s, None) && s.dying == {} && k in s.slots && s.slots[k] == Some(x)
    ensures x in s.refs && s.refs[x] > 0 && Inv(Detach(s, k, x), None)
  {
    hide CountedIn, CellsIn, SlotsIn, Holders;
    FieldInside(s, k);
    CountNulled(s, k);
    CountDetached(s.alive, s.refs, s.slots[k := None], s.floating, x);
    SlotsSet(s, Detach(s, k, x), k);
    CellsKept(s, Detach(s, k, x));
  }

  lemma CountDetached(alive: set<nat>, refs: map<nat, int>, slots: Slots, floating: set<nat>, x: nat)
    requires CountedIn(alive, refs, slots, floating, {}, Some(x)) && x in alive
    ensures x in refs && refs[x] > 0
    ensures CountedIn(alive, refs[x := refs[x] - 1], slots, if refs[x] == 1 then floating + {x} else floating, {}, None)
  {
    hide Holders;
  }

  // Weak handles change only the cells.

  function Watch(s: State, w: nat, x: nat): State
    requires x in s.weak
  {
    s.(weakHandles := s.weakHandles[w := Some(x)], weak := s.weak[x := s.weak[x] + 1])
  }

  lemma Watched(s: State, w: nat, x: nat)
    requires Inv(s, None) && x in s.weak && x in s.refs && x < s.next && (w in s.weakHandles ==> s.weakHandles[w] == None)
    ensures Inv(Watch(s, w, x), None)
  {
    CellsWatched(s.next, s.alive, s.refs, s.weak, s.weakHandles, s.destroyed, s.freed, w, x);
    hide CountedIn, SlotsIn, CellsIn;
  }

  lemma CellsWatched(next: nat, alive: set<nat>, refs: map<nat, int>, weak: map<nat, int>,
                     watchers: map<nat, Option<nat>>, destroyed: multiset<nat>, freed: multiset<nat>, w: nat, x: nat)
    requires CellsIn(next, alive, refs, weak, watchers, destroyed, freed)
    requires x in weak && x < next && (w in watchers ==> watchers[w] == None)
    ensures CellsIn(next, alive, refs, weak[x := weak[x] + 1], watchers[w := Some(x)], destroyed, freed)
  {
    var now := watchers[w := Some(x)];
    forall y: nat ensures |Holders(now, y)| == |Holders(watchers, y)| + if y == x then 1 else 0 {
      HoldersGiven(watchers, w, x, y);
    }
    forall y: nat ensures Holders(now, y) != {} <==> y == x || Holders(watchers, y) != {} {
      NoHolders(now, y);
      NoHolders(watchers, y);
    }
    hide Holders;
  }

  /** WeakReference::releaseRef: the last watcher of an expired object frees the cell. */
  function Unwatch(s: State, w: nat, x: nat): State
    requires x in s.weak && x in s.refs
  {
    var n := s.weak[x] - 1;
    var t := s.(weakHandles := s.weakHandles[w := None]);
    if s.refs[x] < 0 && n == 0 then t.(refs := s.refs - {x}, weak := s.weak - {x}, freed := s.freed + multiset{x})
    else t.(weak := s.weak[x := n])
  }

  lemma WatchedCell(s: State, w: nat)
    requires CellsExist(s) && w in s.weakHandles && s.weakHandles[w].Some?
    ensures var x := s.weakHandles[w].value;
      && x in s.refs && x in s.weak && x < s.next
      && s.weak[x] == |Holders(s.weakHandles, x)| + (if x in s.alive then 1 else 0) && |Holders(s.weakHandles, x)| > 0
  {
    var x := s.weakHandles[w].value;
    assert w in Holders(s.weakHandles, x);
  }

  lemma CellTells(s: State, x: nat)
    requires Inv(s, None) && x in s.refs
    ensures s.refs[x] < 0 <==> x !in s.alive
  {
    hide Holders, SlotsExist;
  }

  lemma Unwatched(s: State, w: nat)
    requires Inv(s, None) && w in s.weakHandles && s.weakHandles[w].Some?
    ensures var x := s.weakHandles[w].value; x in s.refs && x in s.weak && Inv(Unwatch(s, w, x), None)
  {
    WatchedCell(s, w);
    var x := s.weakHandles[w].value;
    CellTells(s, x);
    CellsUnwatched(s, w, x);
    CountUnwatched(s.alive, s.refs, s.slots, s.floating, s.dying, x);
    hide CountedIn, SlotsIn, CellsIn;
  }

  lemma CountUnwatched(alive: set<nat>, refs: map<nat, int>, slots: Slots, floating: set<nat>, dying: set<nat>, x: nat)
    requires CountedIn(alive, refs, slots, floating, dying, None) && x in refs
    ensures x !in alive ==> CountedIn(alive, refs - {x}, slots, floating, dying, None)
  {
    hide Holders;
  }

  lemma CellsUnwatched(s: State, w: nat, x: nat)
    requires CellsExist(s) && w in s.weakHandles && s.weakHandles[w] == Some(x) && x in s.refs && x in s.weak && x < s.next
    requires s.refs[x] < 0 <==> x !in s.alive
    ensures CellsExist(Unwatch(s, w, x))
  {
    WatchedCell(s, w);
    var now := s.weakHandles[w := None];
    forall y: nat ensures |Holders(now, y)| == |Holders(s.weakHandles, y)| - if y == x then 1 else 0 {
      HoldersTaken(s.weakHandles, w, x, y);
    }
    forall y: nat ensures Holders(now, y) != {} <==> Holders(s.weakHandles, y) != {} && (y != x || s.weak[x] - 1 > if x in s.alive then 1 else 0) {
      NoHolders(now, y);
      NoHolders(s.weakHandles, y);
    }
    hide Holders;
    CellUnwatched(s.next, s.alive, s.refs, s.weak, s.weakHandles, now, s.destroyed, s.freed, x);
  }

  lemma CellUnwatched(next: nat, alive: set<nat>, refs: map<nat, int>, weak: map<nat, int>,
                      watchers: map<nat, Option<nat>>, now: map<nat, Option<nat>>,
                      destroyed: multiset<nat>, freed: multiset<nat>, x: nat)
    requires CellsIn(next, alive, refs, weak, watchers, destroyed, freed) && x in weak && x in refs && x < next
    requires forall w <- now :: now[w].Some? ==> now[w].value < next
    requires forall y: nat :: |Holders(now, y)| == |Holders(watchers, y)| - if y == x then 1 else 0
    requires forall y: nat ::
      Holders(now, y) != {} <==> Holders(watchers, y) != {} && (y != x || weak[x] - 1 > if x in alive then 1 else 0)
    requires Holders(watchers, x) != {}
    ensures if x !in alive && weak[x] == 1
            then CellsIn(next, alive, refs - {x}, weak - {x}, now, destroyed, freed + multiset{x})
            else CellsIn(next, alive, refs, weak[x := weak[x] - 1], now, destroyed, freed)
  {
    hide Holders;
    if x !in alive && weak[x] == 1 {
      forall y: nat ensures (freed + multiset{x})[y] == if y < next && y !in refs - {x} then 1 else 0 {
        assert freed[y] == if y < next && y !in refs then 1 else 0;
      }
    }
  }

  class Heap {
    var next: nat
    var alive: set<nat>
    var refs: map<nat, int>
    var weak: map<nat, int>
    var slots: Slots
    var size: map<nat, nat>
    var weakHandles: map<nat, Option<nat>>
    ghost var floating: set<nat>
    ghost var dying: set<nat>
    ghost var destroyed: multiset<nat>
    ghost var freed: multiset<nat>

    ghost function Now(): State
      reads this
    {
      State(next, alive, refs, weak, slots, size, weakHandles, floating, dying, destroyed, freed)
    }

    constructor ()
      ensures Valid(Now()) && next == 0 && alive == {} && slots == map[] && weakHandles == map[]
    {
      next, alive, refs, weak, slots, size, weakHandles := 0, {}, map[], map[], map[], map[], map[];
      floating, dying, destroyed, freed := {}, {}, multiset{}, multiset{};
    }

    /** RefCounted::releaseRef; the handle that held the object is already cleared. */
    method ReleaseRef(x: nat) returns (ghost order: seq<nat>)
      requires Inv(Now(), Some(x)) && x in alive && x !in dying
      modifies this
      ensures Inv(Now(), None) && Released(old(Now()), Now())
      ensures Ordered(old(slots), old(dying), order) && Deletes(old(alive), alive, order)
      ensures x in alive <==> old(refs)[x] > 1
      decreases |alive - floating - dying|, 0
    {
      hide Inv, Released, Deleting, Ordered, Deletes;
      ghost var s := Now();
      CellExists(s, x);
      refs := refs[x := refs[x] - 1];
      if refs[x] == 0 {
        ReleaseLast(s, x);
        dying := dying + {x};
        assert Now() == StartDying(s, x);
        assert alive - floating - dying < s.alive - s.floating - s.dying;
        ProperSubsetSize(alive - floating - dying, s.alive - s.floating - s.dying);
        order := Delete(x);
        ReleasedTogether(s, x, Now());
        OrderedFirst(s, x, order);
        DeletesFirst(s.alive, alive, x, order);
        order := [x] + order;
      } else {
        order := [];
        OrderedNothing(slots, dying, alive);
        ReleaseShared(s, x);
        InvSlots(s, Some(x));
        ReleasedNothing(s, Now());
      }
    }

    /** The destructor: the fields release their objects, the last one first, then the cell is
        marked as expired. */
    method Delete(x: nat) returns (ghost order: seq<nat>)
      requires Inv(Now(), None) && x in dying && HasFields(Now(), x, SizeOf(Now(), x))
      modifies this
      ensures Inv(Now(), None) && Released(old(Now()).(dying := old(dying) - {x}), Now()) && x !in alive
      ensures Ordered(old(slots), old(dying), order) && Deletes(old(alive) - {x}, alive, order)
      decreases |alive - floating - dying|, 2
    {
      hide Inv, Released, Deleting, HasFields, Expire, Ordered, Deletes;
      ghost var s := Now();
      InvSlots(s, None);
      DyingExists(s, x);
      var i: nat := size[x];
      DeletingStarts(s, x);
      order := [];
      OrderedNothing(slots, dying, alive);
      while i > 0
        invariant Inv(Now(), None) && x in dying && HasFields(Now(), x, i) && Deleting(s, Now(), x, i)
        invariant alive <= s.alive && floating == s.floating && dying == s.dying
        invariant Ordered(s.slots, s.dying, order) && Deletes(s.alive, alive, order)
      {
        i := i - 1;
        SubsetSize(alive - floating - dying, s.alive - s.floating - s.dying);
        ghost var t := Now();
        ghost var more := ReleaseField(x, i, s);
        OrderedMore(s, t, x, i + 1, order, more);
        DeletesMore(s.alive, t.alive, alive, order, more);
        order := order + more;
      }
      DyingCell(Now(), x);
      DeletingEnds(s, Now(), x);
      DyingExists(Now(), x);
      DeletesOther(s.alive, alive, x, order);
      ExpireKeeps(Now(), x);
      MarkExpired(x);
    }

    method ReleaseField(x: nat, i: nat, ghost s: State) returns (ghost order: seq<nat>)
      requires Inv(Now(), None) && x in dying && HasFields(Now(), x, i + 1) && Deleting(s, Now(), x, i + 1)
      modifies this
      ensures Inv(Now(), None) && HasFields(Now(), x, i) && Deleting(s, Now(), x, i)
      ensures alive <= old(alive) && floating == old(floating) && dying == old(dying)
      ensures Ordered(old(slots), old(dying), order) && Deletes(old(alive), alive, order)
      decreases |alive - floating - dying|, 1
    {
      hide Inv, Released, Deleting, HasFields, ClearField, Ordered, Deletes;
      ghost var t := Now();
      FieldReleased(t, x, i);
      DeletingField(s, t, x, i);
      FieldCleared(t, x, i);
      var c := slots[Field(x, i)];
      slots := slots - {Field(x, i)};
      assert Now() == ClearField(t, x, i);
      order := [];
      OrderedNothing(t.slots, dying, alive);
      if c.Some? {
        ghost var u := Now();
        order := ReleaseRef(c.value);
        OrderedField(t.slots, t.dying, x, i, order);
        DeletingReleased(s, u, Now(), x, i);
        FieldsStay(u, Now(), x, i);
      }
    }

    /** The destructor of the base class. */
    method MarkExpired(x: nat)
      requires Inv(Now(), None) && x in dying && x in refs && x in weak && forall i: nat :: Field(x, i) !in slots
      modifies this
      ensures Inv(Now(), None) && Now() == Expire(old(Now()), x)
    {
      hide Inv;
      Expired(Now(), x);
      var w := weak[x] - 1;
      alive, dying, destroyed := alive - {x}, dying - {x}, destroyed + multiset{x};
      if w == 0 {
        refs, weak, freed := refs - {x}, weak - {x}, freed + multiset{x};
      } else {
        refs, weak := refs[x := -1], weak[x := w];
      }
    }

    // The operations of a program; none of them runs while an object is being deleted.

    method NewObject(fields: nat) returns (x: nat)
      requires Valid(Now())
      modifies this
      ensures Valid(Now()) && x == old(next) && Now() == Create(old(Now()), fields)
      ensures x !in old(alive) && alive == old(alive) + {x} && weakHandles == old(weakHandles) && x in refs && refs[x] == 0
      ensures WithEmptyFields(old(slots), slots, x, fields)
    {
      hide Inv;
      Created(Now(), fields);
      CreatedIsEmpty(Now(), fields);
      x := next;
      next, alive, refs, weak := x + 1, alive + {x}, refs[x := 0], weak[x := 1];
      slots, size, floating := slots + NewFields(x, fields), size[x := fields], floating + {x};
    }

    /** Reference::addRef, for a handle that has just been set. */
    method AddRef(k: Slot, x: nat)
      requires Valid(Now()) && CanHold(Now(), k) && x in alive
      modifies this
      ensures Valid(Now()) && x in old(refs) && Now() == Acquire(old(Now()), k, x)
    {
      hide Inv;
      Acquired(Now(), k, x);
      slots, refs, floating := slots[k := Some(x)], refs[x := refs[x] + 1], floating - {x};
    }

    method NewHandle(id: nat, target: Option<nat>)
      requires Valid(Now()) && Handle(id) !in slots && (target.Some? ==> target.value in alive)
      modifies this
      ensures Valid(Now()) && slots == old(slots)[Handle(id) := target] && alive == old(alive) && weakHandles == old(weakHandles)
      ensures target.Some? ==> target.value in old(refs) && Now() == Acquire(old(Now()), Handle(id), target.value)
      ensures target.None? ==> Now() == SetNull(old(Now()), Handle(id))
    {
      hide Inv;
      if target.Some? {
        AddRef(Handle(id), target.value);
      } else {
        HandleAdded(Now(), id);
        slots := slots[Handle(id) := None];
      }
    }

    /** Reference::releaseRef and reset. The handle is set to null after the release only; if it is
        a field of an object that is deleted by the release, its destructor releases it again. */
    method Reset(k: Slot) returns (ok: bool)
      requires Valid(Now()) && k in slots
      modifies this
      ensures ok <==> OwnerSurvives(old(Now()), k)
      ensures ok ==> Valid(Now()) && Released(SetNull(old(Now()), k), Now()) && SustainedSurvive(old(Now()), k, Now())
    {
      hide Inv, Released, Sustained, Ordered, Deletes;
      ghost var s := Now();
      SlotNulled(s, k);
      var c := slots[k];
      slots := slots[k := None];
      ghost var order: seq<nat> := [];
      assert Now() == SetNull(s, k);
      OrderedNothing(slots, dying, alive);
      if c.Some? {
        order := ReleaseRef(c.value);
        ReleasedDying(SetNull(s, k), Now());
      } else {
        InvSlots(Now(), None);
        ReleasedNothing(SetNull(s, k), Now());
      }
      ReleaseSurvivors(s, k, Now(), order);
      ok := k.Handle? || k.owner in alive;
    }

    method DropHandle(id: nat)
      requires Valid(Now()) && Handle(id) in slots
      modifies this
      ensures Valid(Now()) && weakHandles == old(weakHandles)
      ensures alive <= old(alive) && slots == Kept(old(slots), alive) - {Handle(id)}
      ensures Released(SetNull(old(Now()), Handle(id)), Now().(slots := slots[Handle(id) := None]))
      ensures SustainedSurvive(old(Now()), Handle(id), Now())
    {
      hide Inv, Sustained;
      var _ := Reset(Handle(id));
      HandleRemoved(Now(), id);
      ghost var t := Now();
      slots := slots - {Handle(id)};
      assert slots[Handle(id) := None] == t.slots;
    }

    /** Assignment of a raw pointer. The old object is released first. If that deletes the new
        one, or the object the handle is part of, what follows uses deleted memory. */
    method Assign(k: Slot, target: Option<nat>) returns (ok: bool)
      requires Valid(Now()) && k in slots && (target.Some? ==> target.value in alive)
      modifies this
      ensures old(slots)[k] == target ==> ok && Now() == old(Now())
      ensures old(slots)[k] != target ==>
        (ok <==> OwnerSurvives(old(Now()), k) && (target.Some? ==> Sustained(SetNull(old(Now()), k), target.value)))
      ensures old(slots)[k] != target && OwnerSurvives(old(Now()), k) ==>
        && Valid(Now()) && weakHandles == old(weakHandles) && SustainedSurvive(old(Now()), k, Now())
        && slots == Kept(old(slots), alive)[k := if ok then target else None]
        && if ok then Assigned(old(Now()), k, target, Now()) else Released(SetNull(old(Now()), k), Now())
    {
      hide Inv, Released, Sustained, Assigned;
      ghost var s := Now();
      if slots[k] == target {
        return true;
      }
      ok := Reset(k);
      if !ok {
        return false;
      }
      ghost var t := Now();
      AfterReset(s, k, t);
      if target.Some? && target.value !in alive {
        return false;
      }
      if target.Some? {
        AliveCell(t, target.value);
        CanHoldAgain(t, k);
        AddRef(k, target.value);
      }
      AssignmentDone(s, k, target, t);
      ok := true;
    }

    /** Assignment of a handle, which is read after the old object is released. */
    method AssignFrom(k: Slot, from: Slot) returns (ok: bool)
      requires Valid(Now()) && k in slots && from in slots && from != k
      modifies this
      ensures old(slots)[k] == old(slots)[from] ==> ok && Now() == old(Now())
      ensures old(slots)[k] != old(slots)[from] ==>
        (ok <==> OwnerSurvives(old(Now()), k) && (from.Field? ==> Sustained(SetNull(old(Now()), k), from.owner)))
      ensures old(slots)[k] != old(slots)[from] && OwnerSurvives(old(Now()), k) ==>
        && Valid(Now()) && weakHandles == old(weakHandles) && SustainedSurvive(old(Now()), k, Now())
        && slots == Kept(old(slots), alive)[k := if ok then old(slots)[from] else None]
        && if ok then Assigned(old(Now()), k, old(slots)[from], Now()) else Released(SetNull(old(Now()), k), Now())
    {
      hide Inv, Released, Sustained, Assigned;
      ghost var s := Now();
      if slots[k] == slots[from] {
        return true;
      }
      ok := Reset(k);
      if !ok {
        return false;
      }
      ghost var t := Now();
      AfterReset(s, k, t);
      OtherAfterReset(s, k, t, from);
      if from !in slots {
        return false;
      }
      if slots[from].Some? {
        CanHoldAgain(t, k);
        HeldExists(t, from);
        AliveCell(t, slots[from].value);
        AddRef(k, slots[from].value);
      } else {
        assert slots[k := None] == slots;
      }
      AssignmentDone(s, k, s.slots[from], t);
      ok := true;
    }

    /** A reset with the count raised before and lowered after, which deletes nothing. */
    method ResetCountedTwice(k: Slot, x: nat)
      requires x in refs && refs[x] > 0
      modifies `refs, `slots
      ensures slots == old(slots)[k := None] && refs == old(refs)[x := old(refs)[x] - 1]
    {
      refs := refs[x := refs[x] + 1];
      slots := slots[k := None];
      refs := refs[x := refs[x] - 1];
      refs := refs[x := refs[x] - 1];
    }

    method DetachFrom(k: Slot)
      requires Valid(Now()) && k in slots
      modifies this
      ensures Valid(Now()) && alive == old(alive) && slots == old(slots)[k := None] && weakHandles == old(weakHandles)
      ensures old(slots)[k].Some? ==> old(slots)[k].value in old(refs) && Now() == Detach(old(Now()), k, old(slots)[k].value)
      ensures old(slots)[k].None? ==> Now() == old(Now())
    {
      hide Inv;
      if slots[k].Some? {
        var x := slots[k].value;
        ghost var s := Now();
        Detached(s, k, x);
        ResetCountedTwice(k, x);
        if refs[x] == 0 {
          floating := floating + {x};
        }
        assert Now() == Detach(s, k, x);
      } else {
        assert slots[k := None] == slots;
      }
    }

    /** A weak handle from a pointer to an object that exists. */
    method NewWeak(w: nat, x: nat)
      requires Valid(Now()) && w !in weakHandles && x in alive
      modifies this
      ensures Valid(Now()) && weakHandles == old(weakHandles)[w := Some(x)] && slots == old(slots) && alive == old(alive)
      ensures x in old(weak) && Now() == Watch(old(Now()), w, x)
    {
      hide Inv;
      AliveCell(Now(), x);
      Watched(Now(), w, x);
      weakHandles, weak := weakHandles[w := Some(x)], weak[x := weak[x] + 1];
    }

    /** A copy watches the same object, even an expired one. */
    method CopyWeak(w: nat, from: nat)
      requires Valid(Now()) && w !in weakHandles && from in weakHandles && weakHandles[from].Some?
      modifies this
      ensures Valid(Now()) && weakHandles == old(weakHandles)[w := old(weakHandles)[from]] && slots == old(slots) && alive == old(alive)
      ensures old(weakHandles)[from].value in old(weak) && Now() == Watch(old(Now()), w, old(weakHandles)[from].value)
    {
      hide Inv;
      WatchedExists(Now(), from);
      var x := weakHandles[from].value;
      Watched(Now(), w, x);
      weakHandles, weak := weakHandles[w := Some(x)], weak[x := weak[x] + 1];
    }

    /** WeakReference::releaseRef */
    method ResetWeak(w: nat)
      requires Valid(Now()) && w in weakHandles
      modifies this
      ensures Valid(Now()) && weakHandles == old(weakHandles)[w := None] && slots == old(slots) && alive == old(alive)
      ensures old(weakHandles)[w].Some? ==> var x := old(weakHandles)[w].value;
        x in old(refs) && x in old(weak) && Now() == Unwatch(old(Now()), w, x)
      ensures old(weakHandles)[w].None? ==> Now() == old(Now())
    {
      hide Inv;
      if weakHandles[w].Some? {
        var x := weakHandles[w].value;
        ghost var s := Now();
        Unwatched(s, w);
        var n := weak[x] - 1;
        var expired := refs[x] < 0;
        weakHandles, weak := weakHandles[w := None], weak[x := n];
        if expired && n == 0 {
          refs, weak, freed := refs - {x}, weak - {x}, freed + multiset{x};
          assert weak == s.weak - {x};
        }
        assert Now() == Unwatch(s, w, x);
      } else {
        assert weakHandles[w := None] == weakHandles;
      }
    }

    /** A strong handle to the object watched, or null if it has expired. */
    method Lock(w: nat, id: nat) returns (target: Option<nat>)
      requires Valid(Now()) && w in weakHandles && Handle(id) !in slots
      modifies this
      ensures Valid(Now()) && alive == old(alive) && slots == old(slots)[Handle(id) := target] && weakHandles == old(weakHandles)
      ensures target.Some? ==> target.value in old(refs) && Now() == Acquire(old(Now()), Handle(id), target.value)
      ensures target.None? ==> Now() == SetNull(old(Now()), Handle(id))
      ensures target == if old(weakHandles)[w].Some? && old(weakHandles)[w].value in alive then old(weakHandles)[w] else None
    {
      hide Inv;
      target := None;
      if weakHandles[w].Some? {
        WatchedExists(Now(), w);
        CellTells(Now(), weakHandles[w].value);
        if refs[weakHandles[w].value] >= 0 {
          target := weakHandles[w];
        }
      }
      NewHandle(id, target);
    }
  }

  /** A release followed by the acquisition of the new target is an assignment. */
  lemma AssignmentDone(s: State, k: Slot, target: Option<nat>, t: State)
    requires Released(SetNull(s, k), t) && k in t.slots && (target.Some? ==> target.value in t.refs && target.value in t.alive)
    ensures target.Some? ==> Assigned(s, k, target, Acquire(t, k, target.value))
    ensures target.None? && t.floating == s.floating && t.slots[k] == None ==> Assigned(s, k, target, t)
  {
  }

  lemma ReleasedDying(s: State, t: State)
    requires Released(s, t)
    ensures t.dying == s.dying && t.alive <= s.alive
  {
  }

  lemma AliveCell(s: State, x: nat)
    requires Inv(s, None) && x in s.alive
    ensures x in s.refs && x in s.weak && x < s.next
  {
    hide Holders;
    AliveBelow(s, x);
    CellOf(s, x);
  }

  lemma WatchedExists(s: State, w: nat)
    requires Inv(s, None) && w in s.weakHandles && s.weakHandles[w].Some?
    ensures var x := s.weakHandles[w].value; x in s.refs && x in s.weak && x < s.next
  {
    WatchedCell(s, w);
  }

  lemma AfterReset(s: State, k: Slot, t: State)
    requires Inv(s, None) && k in s.slots && Released(SetNull(s, k), t)
    ensures k in t.slots <==> k.Handle? || k.owner in t.alive
    ensures k in t.slots ==> t.slots == Kept(s.slots, t.alive)[k := None]
    ensures t.weakHandles == s.weakHandles && t.floating == s.floating && t.dying == s.dying
  {
    hide Holders;
  }

  lemma OtherAfterReset(s: State, k: Slot, t: State, from: Slot)
    requires Inv(s, None) && k in s.slots && from in s.slots && from != k && Released(SetNull(s, k), t)
    ensures from in t.slots <==> from.Handle? || from.owner in t.alive
    ensures from in t.slots ==> t.slots[from] == s.slots[from]
  {
    hide Inv;
  }

  lemma HeldExists(s: State, k: Slot)
    requires Inv(s, None) && k in s.slots && s.slots[k].Some?
    ensures s.slots[k].value in s.alive
  {
    FieldInside(s, k);
  }

  lemma CanHoldAgain(t: State, k: Slot)
    requires Inv(t, None) && t.dying == {} && k in t.slots && t.slots[k] == None
    ensures CanHold(t, k)
  {
    FieldInside(t, k);
  }

  lemma FieldCleared(s: State, x: nat, i: nat)
    ensures ClearField(s, x, i) == s.(slots := s.slots - {Field(x, i)})
  {
  }

  lemma CellExists(s: State, x: nat)
    requires Inv(s, Some(x)) && x in s.alive && x !in s.dying
    ensures x in s.refs && s.refs[x] > 0 && s.floating !! s.dying && x !in s.floating
  {
    hide Holders, CellsExist, SlotsExist;
  }

  lemma InvSlots(s: State, pending: Option<nat>)
    requires Inv(s, pending)
    ensures SlotsExist(s)
  {
  }

  lemma DyingExists(s: State, x: nat)
    requires Inv(s, None) && x in s.dying
    ensures x in s.alive && x in s.size
  {
    hide Holders, CellsExist;
  }

  lemma DyingCell(s: State, x: nat)
    requires Inv(s, None) && x in s.dying
    ensures x in s.refs && x in s.weak
  {
    hide Holders, SlotsExist;
  }

  lemma FieldsStay(s: State, t: State, x: nat, i: nat)
    requires Released(s, t) && HasFields(s, x, i) && x in s.dying && Inv(t, None)
    ensures HasFields(t, x, i) && x in t.dying && t.alive <= s.alive && t.floating == s.floating && t.dying == s.dying
  {
    hide Holders, CellsExist, SlotsExist;
    assert x in t.alive;
  }

  lemma ReleasedTogether(s: State, x: nat, t: State)
    requires x in s.refs && x !in s.dying && Released(StartDying(s, x).(dying := StartDying(s, x).dying - {x}), t)
    ensures Released(s, t)
  {
    assert StartDying(s, x).dying - {x} == s.dying;
  }

  // Who keeps an object alive.

  function Targets(slots: Slots, x: nat, n: nat): (r: seq<nat>)
    ensures forall y: nat :: y in r <==> exists i: nat :: i < n && Field(x, i) in slots && slots[Field(x, i)] == Some(y)
  {
    if n == 0 then []
    else
      var k := Field(x, n - 1);
      Targets(slots, x, n - 1) + if k in slots && slots[k].Some? then [slots[k].value] else []
  }

  /** Object x leads to the objects that its fields hold. */
  ghost function Ownership(s: State): Graph {
    seq(s.next, x requires 0 <= x < s.next => Targets(s.slots, x, SizeOf(s, x)))
  }

  ghost predicate AcyclicHeap(s: State) {
    Acyclic(Ownership(s))
  }

  /** Held by a variable of the program, or by nothing at all on purpose. */
  ghost predicate IsAnchor(s: State, x: nat) {
    x in s.floating || exists id: nat :: Handle(id) in s.slots && s.slots[Handle(id)] == Some(x)
  }

  ghost predicate Held(s: State, x: nat) {
    exists r: nat :: IsAnchor(s, r) && Reaches(Ownership(s), r, x)
  }

  ghost predicate OnCycle(s: State, x: nat) {
    Follows(Ownership(s), x, x)
  }

  /** Held, or owned by objects that own each other in a circle. */
  ghost predicate Sustained(s: State, x: nat) {
    Held(s, x) || exists w: nat :: OnCycle(s, w) && Reaches(Ownership(s), w, x)
  }

  ghost predicate Owns(s: State, x: nat, i: nat, y: nat) {
    Field(x, i) in s.slots && s.slots[Field(x, i)] == Some(y)
  }

  lemma OwnershipEdge(s: State, x: nat, y: nat)
    ensures Edge(Ownership(s), x, y) <==> x < s.next && exists i: nat :: i < SizeOf(s, x) && Owns(s, x, i, y)
  {
    if x < s.next {
      assert Ownership(s)[x] == Targets(s.slots, x, SizeOf(s, x));
      var r := Targets(s.slots, x, SizeOf(s, x));
      if y in r {
        var i: nat :| i < SizeOf(s, x) && Field(x, i) in s.slots && s.slots[Field(x, i)] == Some(y);
        assert Owns(s, x, i, y);
      }
    }
  }

  /** What an object that exists leads to exists. */
  lemma OwnedExists(s: State, x: nat, y: nat)
    requires SlotsExist(s) && Edge(Ownership(s), x, y)
    ensures x in s.alive && y in s.alive
  {
    OwnershipEdge(s, x, y);
    var i: nat :| i < SizeOf(s, x) && Owns(s, x, i, y);
    assert Field(x, i) in s.slots && Field(x, i).owner == x;
  }

  lemma AnchorExists(s: State, x: nat)
    requires Inv(s, None) && IsAnchor(s, x)
    ensures x in s.alive
  {
    hide Holders, CellsIn;
    if x !in s.floating {
      var id: nat :| Handle(id) in s.slots && s.slots[Handle(id)] == Some(x);
    }
  }

  lemma ReachedExists(s: State, x: nat, y: nat)
    requires SlotsExist(s) && x in s.alive && Reaches(Ownership(s), x, y)
    ensures y in s.alive
  {
    hide SlotsIn;
    var p :| PathBetween(Ownership(s), x, y, p);
    if |p| > 1 {
      assert Edge(Ownership(s), p[|p| - 2], p[|p| - 1]);
      OwnedExists(s, p[|p| - 2], p[|p| - 1]);
    }
  }

  /** An object that is not an anchor is owned by another one that exists. */
  lemma SomeOwner(s: State, x: nat) returns (y: nat)
    requires Valid(s) && x in s.alive && !IsAnchor(s, x)
    ensures y in s.alive && Edge(Ownership(s), y, x)
  {
    assert s.refs[x] != 0 && |Holders(s.slots, x)| > 0;
    var k :| k in Holders(s.slots, x);
    if k.Handle? {
      HandleAnchors(s, k, x);
    }
    y := k.owner;
    hide Holders, CellsIn, CountedIn;
    AliveBelow(s, y);
    assert Owns(s, y, k.index, x);
    OwnershipEdge(s, y, x);
  }

  lemma HandleAnchors(s: State, k: Slot, x: nat)
    requires k in s.slots && s.slots[k] == Some(x) && k.Handle?
    ensures IsAnchor(s, x)
  {
    assert Handle(k.id) in s.slots;
  }

  /** Going from owner to owner ends at an anchor, or goes round in a circle. */
  lemma {:induction false} OwnersEnd(s: State, p: seq<nat>)
    requires Valid(s) && IsPath(Ownership(s), p) && Distinct(p) && p[0] in s.alive && forall x <- p :: x < s.next
    ensures Sustained(s, p[|p| - 1])
    decreases s.next - |p|
  {
    hide Valid, Reaches, Ownership, OnCycle;
    var g := Ownership(s);
    var last := p[|p| - 1];
    PathReaches(g, p, 0);
    if IsAnchor(s, p[0]) {
      assert Held(s, last);
    } else {
      var y := OwnerOf(s, p[0]);
      if y in p {
        var i :| 0 <= i < |p| && p[i] == y;
        PathPrefix(g, p, i);
        assert OnCycle(s, p[i]) by {
          CycleOf(s, p[i], p[0]);
        }
        PathReaches(g, p, i);
      } else {
        var q := [y] + p;
        assert IsPath(g, q) by {
          forall j | 0 <= j < |q| - 1 ensures Edge(g, q[j], q[j + 1]) {
            if j > 0 {
              assert Edge(g, p[j - 1], p[j]);
            }
          }
        }
        Pigeonhole(q, s.next);
        OwnersEnd(s, q);
      }
    }
  }

  lemma CycleOf(s: State, x: nat, y: nat)
    requires Edge(Ownership(s), x, y) && Reaches(Ownership(s), y, x)
    ensures OnCycle(s, x)
  {
    hide Reaches, Ownership;
  }

  lemma OwnerOf(s: State, x: nat) returns (y: nat)
    requires Valid(s) && x in s.alive && !IsAnchor(s, x)
    ensures y in s.alive && y < s.next && Edge(Ownership(s), y, x)
  {
    y := SomeOwner(s, x);
    hide Holders;
    AliveBelow(s, y);
  }

  lemma PathReaches(g: Graph, p: seq<nat>, i: nat)
    requires IsPath(g, p) && i < |p|
    ensures Reaches(g, p[i], p[|p| - 1])
  {
    assert PathBetween(g, p[i], p[|p| - 1], p[i..]);
  }

  lemma PathPrefix(g: Graph, p: seq<nat>, i: nat)
    requires IsPath(g, p) && i < |p|
    ensures Reaches(g, p[0], p[i])
  {
    assert PathBetween(g, p[0], p[i], p[..i + 1]);
  }

  lemma HeldFurther(s: State, x: nat, y: nat)
    requires Held(s, x) && Reaches(Ownership(s), x, y)
    ensures Held(s, y)
  {
    hide Reaches;
    var r: nat :| IsAnchor(s, r) && Reaches(Ownership(s), r, x);
    ReachesTransitive(Ownership(s), r, x, y);
  }

  lemma HeldIsAlive(s: State, x: nat)
    requires Valid(s) && Held(s, x)
    ensures x in s.alive
  {
    var r: nat :| IsAnchor(s, r) && Reaches(Ownership(s), r, x);
    AnchorExists(s, r);
    hide Holders, Reaches;
    ReachedExists(s, r, x);
  }

  lemma ValidBelow(s: State, x: nat)
    requires Valid(s) && x in s.alive
    ensures x < s.next
  {
    hide Holders;
    AliveBelow(s, x);
  }

  lemma CycleIsAlive(s: State, x: nat)
    requires Valid(s) && OnCycle(s, x)
    ensures x in s.alive
  {
    hide Holders, Reaches, Ownership, CellsIn, CountedIn;
    var y: nat :| Edge(Ownership(s), x, y) && Reaches(Ownership(s), y, x);
    OwnedExists(s, x, y);
  }

  /** An object exists exactly as long as it is sustained. */
  lemma AliveExactly(s: State, x: nat)
    requires Valid(s)
    ensures x in s.alive <==> Sustained(s, x)
    ensures AcyclicHeap(s) ==> (x in s.alive <==> Held(s, x))
  {
    hide Held, Ownership, Valid, OnCycle, Reaches;
    if x in s.alive {
      ValidBelow(s, x);
      OwnersEnd(s, [x]);
    }
    if Held(s, x) {
      HeldIsAlive(s, x);
    }
    forall w: nat | OnCycle(s, w) && Reaches(Ownership(s), w, x) ensures x in s.alive {
      CycleIsAlive(s, w);
      ValidReached(s, w, x);
    }
    if AcyclicHeap(s) {
      AcyclicIs(s);
    }
  }

  lemma ValidReached(s: State, x: nat, y: nat)
    requires Valid(s) && x in s.alive && Reaches(Ownership(s), x, y)
    ensures y in s.alive
  {
    hide Holders, Reaches;
    ReachedExists(s, x, y);
  }

  lemma AcyclicIs(s: State)
    requires AcyclicHeap(s)
    ensures forall x: nat :: !OnCycle(s, x)
  {
    hide Ownership, Reaches;
  }

  /** Every object that exists is held, exactly when every cycle of owners is. */
  lemma NothingLeaksExactly(s: State)
    requires Valid(s)
    ensures (forall x: nat :: x in s.alive ==> Held(s, x)) <==> forall w: nat :: OnCycle(s, w) ==> Held(s, w)
  {
    hide Held, Ownership, Valid, OnCycle, Reaches;
    forall w: nat | OnCycle(s, w) ensures w in s.alive {
      CycleIsAlive(s, w);
    }
    if forall w: nat :: OnCycle(s, w) ==> Held(s, w) {
      forall x: nat | x in s.alive ensures Held(s, x) {
        AliveExactly(s, x);
        if !Held(s, x) {
          var w: nat :| OnCycle(s, w) && Reaches(Ownership(s), w, x);
          HeldFurther(s, w, x);
        }
      }
    }
  }

  // What survives a release.

  lemma SlotsFewer(s: State, t: State)
    requires t.next == s.next && t.size == s.size
    requires forall k <- t.slots :: t.slots[k].Some? ==> k in s.slots && s.slots[k] == t.slots[k]
    ensures forall x: nat, y: nat :: Edge(Ownership(t), x, y) ==> Edge(Ownership(s), x, y)
    ensures forall x: nat, y: nat :: Reaches(Ownership(t), x, y) ==> Reaches(Ownership(s), x, y)
  {
    forall x: nat, y: nat | Edge(Ownership(t), x, y) ensures Edge(Ownership(s), x, y) {
      OwnershipEdge(t, x, y);
      OwnershipEdge(s, x, y);
      var i: nat :| i < SizeOf(t, x) && Owns(t, x, i, y);
      assert Owns(s, x, i, y);
    }
    forall x: nat, y: nat | Reaches(Ownership(t), x, y) ensures Reaches(Ownership(s), x, y) {
      hide Ownership;
      var p :| PathBetween(Ownership(t), x, y, p);
      assert PathBetween(Ownership(s), x, y, p);
    }
  }

  /** Owners are deleted first, so no object on a cycle of owners is deleted. */
  lemma {:induction false} CyclesStay(n: State, order: seq<nat>, i: nat)
    requires Ordered(n.slots, {}, order) && i < |order|
    ensures !OnCycle(n, order[i])
    decreases i
  {
    hide Ordered, Ownership, Reaches;
    if OnCycle(n, order[i]) {
      var p := CyclePredecessor(n, order[i]);
      OwnerIsEarlier(n, order, i, p);
      var j :| 0 <= j < i && order[j] == p;
      CyclesStay(n, order, j);
    }
  }

  /** What comes before an object on its cycle is on the cycle as well. */
  lemma CyclePredecessor(n: State, x: nat) returns (p: nat)
    requires OnCycle(n, x)
    ensures Edge(Ownership(n), p, x) && OnCycle(n, p)
  {
    var g := Ownership(n);
    hide Ownership;
    var y: nat :| Edge(g, x, y) && Reaches(g, y, x);
    var path :| PathBetween(g, y, x, path);
    if |path| == 1 {
      p := x;
    } else {
      p := path[|path| - 2];
      assert Edge(g, p, x) by {
        assert path[|path| - 1] == x;
      }
      PathPrefix(g, path, |path| - 2);
      assert Reaches(g, x, y) by {
        assert PathBetween(g, x, y, [x, y]);
      }
      ReachesTransitive(g, x, y, p);
      CycleOf(n, p, x);
    }
  }

  lemma OwnerIsEarlier(n: State, order: seq<nat>, i: nat, p: nat)
    requires Ordered(n.slots, {}, order) && i < |order| && Edge(Ownership(n), p, order[i])
    ensures p in order[..i]
  {
    OwnershipEdge(n, p, order[i]);
    hide Ownership;
    var f: nat :| f < SizeOf(n, p) && Owns(n, p, f, order[i]);
    assert Field(p, f).owner == p;
  }

  /** A release deletes exactly the objects that nothing sustains once the handle is cleared. */
  lemma ReleaseSurvivors(s: State, k: Slot, t: State, order: seq<nat>)
    requires Valid(s) && k in s.slots && Valid(t) && Released(SetNull(s, k), t)
    requires Ordered(SetNull(s, k).slots, {}, order) && Deletes(s.alive, t.alive, order)
    ensures SustainedSurvive(s, k, t)
  {
    hide Valid, Held, Ownership, Inv, Ordered, Deletes, OnCycle, Reaches;
    var n := SetNull(s, k);
    ReleasedSlots(n, t);
    SlotsFewer(n, t);
    SlotsFewer(s, n);
    forall x: nat ensures x in t.alive <==> Sustained(n, x) {
      AliveExactly(t, x);
      if Held(t, x) {
        HeldBefore(n, t, x);
      }
      forall w: nat | OnCycle(t, w) ensures OnCycle(n, w) {
        CycleBefore(t, n, w);
      }
      if Held(n, x) {
        HeldAfter(n, t, x);
      }
      forall w: nat | OnCycle(n, w) && Reaches(Ownership(n), w, x) ensures x in t.alive {
        CycleBefore(n, s, w);
        CycleIsAlive(s, w);
        CycleAfter(n, t, w, x, order, s.alive);
      }
    }
  }

  lemma CycleBefore(t: State, n: State, w: nat)
    requires OnCycle(t, w)
    requires forall x: nat, y: nat :: Edge(Ownership(t), x, y) ==> Edge(Ownership(n), x, y)
    requires forall x: nat, y: nat :: Reaches(Ownership(t), x, y) ==> Reaches(Ownership(n), x, y)
    ensures OnCycle(n, w)
  {
    hide Ownership, Reaches;
  }

  lemma CycleAfter(n: State, t: State, w: nat, x: nat, order: seq<nat>, before: set<nat>)
    requires Released(n, t) && Valid(t) && OnCycle(n, w) && w in before && Reaches(Ownership(n), w, x)
    requires Ordered(n.slots, {}, order) && Deletes(before, t.alive, order)
    ensures x in t.alive
  {
    hide Valid, Released, Ordered, OnCycle, Ownership, IsPath;
    if w in order {
      var i :| 0 <= i < |order| && order[i] == w;
      CyclesStay(n, order, i);
    }
    var p :| PathBetween(Ownership(n), w, x, p);
    PathStays(n, t, p);
  }

  /** Without cycles of owners everything that is sustained is held, and the object a handle is part
      of always outlives its release. */
  lemma WithoutCycles(s: State, k: Slot)
    requires Valid(s) && AcyclicHeap(s) && k in s.slots
    ensures forall x: nat :: Sustained(SetNull(s, k), x) <==> Held(SetNull(s, k), x)
    ensures OwnerSurvives(s, k)
  {
    hide Valid, Held, Ownership, OnCycle, Reaches, AcyclicHeap;
    var n := SetNull(s, k);
    SlotsFewer(s, n);
    AcyclicIs(s);
    forall w: nat ensures !OnCycle(n, w) {
      if OnCycle(n, w) {
        CycleBefore(n, s, w);
      }
    }
    if k.Field? {
      OwnerHeld(s, k);
    }
  }

  lemma ReleasedSlots(n: State, t: State)
    requires Released(n, t)
    ensures t.next == n.next && t.size == n.size
    ensures forall k <- t.slots :: k in n.slots && n.slots[k] == t.slots[k]
  {
  }

  lemma HeldBefore(n: State, t: State, x: nat)
    requires Released(n, t) && Held(t, x)
    requires forall x: nat, y: nat :: Reaches(Ownership(t), x, y) ==> Reaches(Ownership(n), x, y)
    ensures Held(n, x)
  {
    hide Ownership, Reaches;
    var r: nat :| IsAnchor(t, r) && Reaches(Ownership(t), r, x);
    assert IsAnchor(n, r);
  }

  lemma HeldAfter(n: State, t: State, x: nat)
    requires Released(n, t) && Valid(t) && Held(n, x)
    ensures x in t.alive
  {
    hide Ownership, Holders;
    var r: nat :| IsAnchor(n, r) && Reaches(Ownership(n), r, x);
    AnchorStays(n, t, r);
    AnchorExists(t, r);
    var p :| PathBetween(Ownership(n), r, x, p);
    PathStays(n, t, p);
  }

  lemma AnchorStays(n: State, t: State, r: nat)
    requires Released(n, t) && IsAnchor(n, r)
    ensures IsAnchor(t, r)
  {
    if r !in n.floating {
      var id: nat :| Handle(id) in n.slots && n.slots[Handle(id)] == Some(r);
      assert Handle(id) in t.slots;
    }
  }

  lemma {:induction false} PathStays(n: State, t: State, p: seq<nat>)
    requires Released(n, t) && Valid(t) && IsPath(Ownership(n), p) && p[0] in t.alive
    ensures p[|p| - 1] in t.alive
    decreases |p|
  {
    hide Holders;
    if |p| > 1 {
      assert Edge(Ownership(n), p[0], p[1]);
      EdgeStays(n, t, p[0], p[1]);
      hide Ownership;
      PathStays(n, t, p[1..]);
    }
  }

  lemma EdgeStays(n: State, t: State, x: nat, y: nat)
    requires Released(n, t) && Valid(t) && x in t.alive && Edge(Ownership(n), x, y)
    ensures y in t.alive
  {
    OwnershipEdge(n, x, y);
    hide Ownership, Holders, CellsIn, CountedIn;
    var i: nat :| i < SizeOf(n, x) && Owns(n, x, i, y);
    assert Field(x, i) in t.slots;
  }

  /** Without cycles, clearing a field of an object does not cut off the object itself. */
  lemma OwnerHeld(s: State, k: Slot)
    requires Valid(s) && AcyclicHeap(s) && k in s.slots && k.Field?
    ensures Held(SetNull(s, k), k.owner)
  {
    hide Ownership, Holders, CellsIn, CountedIn;
    var o := k.owner;
    AliveExactly(s, o);
    var r: nat :| IsAnchor(s, r) && Reaches(Ownership(s), r, o);
    var p :| PathBetween(Ownership(s), r, o, p);
    var n := SetNull(s, k);
    forall i | 0 <= i < |p| - 1 ensures Edge(Ownership(n), p[i], p[i + 1]) {
      assert Edge(Ownership(s), p[i], p[i + 1]);
      PathReaches(Ownership(s), p, i + 1);
      assert !Follows(Ownership(s), o, o);
      assert p[i] != o;
      OtherEdges(s, k, p[i], p[i + 1]);
    }
    assert PathBetween(Ownership(n), r, o, p);
    assert IsAnchor(n, r) by {
      if r !in s.floating {
        var id: nat :| Handle(id) in s.slots && s.slots[Handle(id)] == Some(r);
        assert n.slots[Handle(id)] == Some(r);
      }
    }
  }

  lemma OtherEdges(s: State, k: Slot, x: nat, y: nat)
    requires k.Field? && x != k.owner && Edge(Ownership(s), x, y)
    ensures Edge(Ownership(SetNull(s, k)), x, y)
  {
    var n := SetNull(s, k);
    OwnershipEdge(s, x, y);
    OwnershipEdge(n, x, y);
    var i: nat :| i < SizeOf(s, x) && Owns(s, x, i, y);
    assert Owns(n, x, i, y);
  }

  /** `list = list.next`: the first object holds the second one, and only a variable holds the
      first. Assigning the field to the variable reads the field after it is gone. */
  lemma NextIsLost(s: State)
    requires s.floating == {} && s.slots == map[Handle(0) := Some(0), Field(0, 0) := Some(1)]
    ensures !Held(SetNull(s, Handle(0)), 0) && !Held(SetNull(s, Handle(0)), 1)
  {
    var n := SetNull(s, Handle(0));
    forall r: nat ensures !IsAnchor(n, r) {
      forall id: nat ensures !(Handle(id) in n.slots && n.slots[Handle(id)] == Some(r)) {
        assert Handle(id) in n.slots ==> id == 0;
      }
    }
  }

  ghost const SelfOwner: State := State(1, {0}, map[0 := 1], map[0 := 1], map[Field(0, 0) := Some(0)], map[0 := 1], map[],
                                        {}, {}, multiset{}, multiset{})

  lemma SelfOwnerIsValid()
    ensures Valid(SelfOwner)
  {
    var s := SelfOwner;
    assert Holders(s.slots, 0) == {Field(0, 0)};
    assert Holders(s.weakHandles, 0) == {};
    assert FieldsIn(s.slots, 0, 1);
  }

  /** An object that only its own field holds is on a cycle. Resetting the field releases the object
      for the last time, and its destructor finds the field still set. */
  lemma SelfOwned()
    ensures Valid(SelfOwner) && OnCycle(SelfOwner, 0) && !OwnerSurvives(SelfOwner, Field(0, 0))
  {
    var s := SelfOwner;
    SelfOwnerIsValid();
    var n := SetNull(s, Field(0, 0));
    assert Edge(Ownership(s), 0, 0) && Reaches(Ownership(s), 0, 0) by {
      assert Owns(s, 0, 0, 0);
      OwnershipEdge(s, 0, 0);
      assert PathBetween(Ownership(s), 0, 0, [0]);
    }
    forall x: nat, y: nat ensures !Edge(Ownership(n), x, y) {
      OwnershipEdge(n, x, y);
    }
    hide Ownership, Reaches;
    forall x: nat ensures !IsAnchor(n, x) {
    }
  }
}
