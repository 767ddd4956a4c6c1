/** One uinput device: what is emitted for each key alternates between press
    and release, and nothing stays held after a release of everything. */
module Uinput {
  import opened Common
  import opened HidMap

  const EV_SYN: nat := 0
  const EV_KEY: nat := 1
  const EV_REL: nat := 2
  const EV_ABS: nat := 3
  const ABS_Z: nat := 2
  const ABS_RZ: nat := 5
  const ABS_CNT: nat := 64

  datatype Event = Event(kind: nat, code: nat, value: int)

  const SYN: Event := Event(EV_SYN, 0, 0)

  /** The last value emitted for a code of a kind, 0 when there is none. */
  function Last(es: seq<Event>, kind: nat, code: nat): int {
    if es == [] then 0
    else
      var e := es[|es| - 1];
      if e.kind == kind && e.code == code then e.value else Last(es[..|es| - 1], kind, code)
  }

  /** Press and release take turns, starting with a press. */
  predicate Alternates(es: seq<Event>, k: nat) {
    es == [] ||
    (var n := |es| - 1;
     && Alternates(es[..n], k)
     && (es[n].kind == EV_KEY && es[n].code == k ==> es[n].value == 1 - Last(es[..n], EV_KEY, k)))
  }

  lemma Snoc(es: seq<Event>, e: Event)
    ensures forall kind, code :: Last(es + [e], kind, code) == if e.kind == kind && e.code == code then e.value else Last(es, kind, code)
    ensures forall k :: Alternates(es + [e], k) <==>
              Alternates(es, k) && (e.kind == EV_KEY && e.code == k ==> e.value == 1 - Last(es, EV_KEY, k))
  {
    assert (es + [e])[..|es|] == es;
  }

  /** Presses and releases of one key pair up: the number of presses is that
      of releases, plus one while it is held. */
  function Count(es: seq<Event>, k: nat, value: int): nat {
    if es == [] then 0
    else Count(es[..|es| - 1], k, value) + if es[|es| - 1] == Event(EV_KEY, k, value) then 1 else 0
  }

  lemma {:induction false} PairedUp(es: seq<Event>, k: nat)
    requires Alternates(es, k)
    ensures Last(es, EV_KEY, k) in {0, 1}
    ensures Count(es, k, 1) == Count(es, k, 0) + Last(es, EV_KEY, k)
  {
    if es != [] {
      PairedUp(es[..|es| - 1], k);
    }
  }

  class Device {
    const keys: set<nat>               // declared key codes
    const rels: set<nat>
    const axes: map<nat, (int, int)>   // declared axes and their ranges
    const pointer: bool                // absolute pointer: mapped, not clamped
    const down: array<bool>
    var placed: bool
    var dirty: bool                    // events since the last SYN
    var events: seq<Event>             // emitted so far

    ghost predicate Shape() {
      && down.Length == KEY_CNT
      && (forall k <- keys :: k < KEY_CNT) && (forall a <- axes.Keys :: a < ABS_CNT && axes[a].0 <= axes[a].1)
    }

    ghost predicate Valid()
      reads this`dirty, this`events, down
    {
      && Shape()
      && (forall k | 0 <= k < KEY_CNT :: down[k] == (Last(events, EV_KEY, k) == 1))
      && (forall k: nat :: Alternates(events, k))
      && (forall k: nat | k >= KEY_CNT :: Last(events, EV_KEY, k) == 0)
      && dirty == (events != [] && events[|events| - 1].kind != EV_SYN)
    }

    constructor (keys: set<nat>, rels: set<nat>, axes: map<nat, (int, int)>, pointer: bool)
      requires (forall k <- keys :: k < KEY_CNT) && (forall a <- axes.Keys :: a < ABS_CNT && axes[a].0 <= axes[a].1)
      ensures Valid() && events == [] && this.keys == keys && this.rels == rels && this.axes == axes && this.pointer == pointer
      ensures fresh(down) && !placed
    {
      this.keys, this.rels, this.axes, this.pointer := keys, rels, axes, pointer;
      down := new bool[KEY_CNT](i => false);
      placed, dirty, events := false, false, [];
    }

    method Emit(e: Event)
      modifies this`dirty, this`events
      ensures events == old(events) + [e] && dirty == (e.kind != EV_SYN)
    {
      events := events + [e];
      dirty := e.kind != EV_SYN;
    }

    /** Anything but a key event. */
    method EmitOther(e: Event)
      requires Valid() && e.kind != EV_KEY
      modifies this`dirty, this`events
      ensures Valid() && events == old(events) + [e]
      ensures forall n, c :: Last(events, n, c) == if e.kind == n && e.code == c then e.value else old(Last(events, n, c))
    {
      hide Last, Alternates;
      Snoc(events, e);
      Emit(e);
    }

    /** A key changes; down says so first. */
    method EmitKey(k: nat, v: bool)
      requires Valid() && k < KEY_CNT && down[k] != v
      modifies this`dirty, this`events, down
      ensures Valid() && events == old(events) + [Event(EV_KEY, k, if v then 1 else 0)]
      ensures forall i | 0 <= i < KEY_CNT :: down[i] == if i == k then v else old(down[i])
      ensures forall n, c :: Last(events, n, c) == if n == EV_KEY && c == k then (if v then 1 else 0) else old(Last(events, n, c))
    {
      hide Last, Alternates;
      var e := Event(EV_KEY, k, if v then 1 else 0);
      LastIsBit(events, k);
      Snoc(events, e);
      down[k] := v;
      Emit(e);
    }

    /** What an input message for this device turns into; `mapped` answers the
        mapping of a pointer coordinate onto the desktop. */
    ghost function Answer(kind: nat, code: nat, v: int, mapped: Option<int>): Option<Event>
      requires Shape()
      reads this`placed, down
    {
      if kind == EV_SYN then if code == 0 then Some(Event(EV_SYN, 0, v)) else None
      else if kind == EV_KEY then
        if code in keys && v in {0, 1} && (v == 1 ==> !pointer || placed) && (v == 1) != down[code] then Some(Event(EV_KEY, code, v))
        else None
      else if kind == EV_REL then if code < 32 && code in rels then Some(Event(EV_REL, code, v)) else None
      else if kind == EV_ABS && code in axes then
        if pointer then if mapped.Some? then Some(Event(EV_ABS, code, mapped.value)) else None
        else Some(Event(EV_ABS, code, if v < axes[code].0 then axes[code].0 else if v > axes[code].1 then axes[code].1 else v))
      else None
    }

    method Message(kind: nat, code: nat, v: int, mapped: Option<int>)
      requires Valid()
      modifies this`placed, this`dirty, this`events, down
      ensures Valid()
      ensures var e := old(Answer(kind, code, v, mapped)); events == old(events) + if e.Some? then [e.value] else []
      ensures forall n, c | n != kind || c != code :: Last(events, n, c) == old(Last(events, n, c))
      ensures kind == EV_KEY && code in keys && v in {0, 1} && (v == 0 || !pointer || placed) ==> Last(events, EV_KEY, code) == v
      ensures kind == EV_REL && code in rels && code < 32 ==> Last(events, EV_REL, code) == v
      ensures kind == EV_ABS && code in axes && pointer && mapped.Some? ==> Last(events, EV_ABS, code) == mapped.value
      ensures kind == EV_ABS && code in axes && !pointer ==>
                Last(events, EV_ABS, code) == Max(axes[code].0, Min(v, axes[code].1))
      ensures kind == EV_SYN && code == 0 ==> !dirty
      ensures placed == (old(placed) || (kind == EV_ABS && code in axes && pointer && mapped.Some?))
    {
      hide Last, Alternates;
      LastBits(events);
      if kind == EV_SYN {
        if code != 0 { return; }
        EmitOther(Event(EV_SYN, 0, v));
      } else if kind == EV_KEY {
        if code !in keys || (v != 0 && v != 1) { return; }
        if pointer && v == 1 && !placed { return; }
        if (v == 1) == down[code] { return; }
        EmitKey(code, v == 1);
      } else if kind == EV_REL {
        if code >= 32 || code !in rels { return; }
        EmitOther(Event(EV_REL, code, v));
      } else if kind == EV_ABS {
        if code !in axes { return; }
        var w := v;
        if pointer {
          if mapped.None? { return; }
          w := mapped.value;
          placed := true;
        } else {
          w := if v < axes[code].0 then axes[code].0 else if v > axes[code].1 then axes[code].1 else v;
        }
        EmitOther(Event(EV_ABS, code, w));
      }
    }

    /** Sticks, hat and triggers go back to the center; positions stay. */
    predicate Centers(a: nat) { a in axes && (axes[a].0 < 0 || a == ABS_Z || a == ABS_RZ) }

    /** Releases everything held; the last event the kernel sees is a SYN. */
    method Release()
      requires Valid()
      modifies this`dirty, this`events, down
      ensures Valid() && !dirty
      ensures forall k: nat :: Last(events, EV_KEY, k) == 0
      ensures forall a: nat | a in axes ::
                Last(events, EV_ABS, a) == if axes[a].0 < 0 || a == 2 || a == 5 then 0 else old(Last(events, EV_ABS, a))
      ensures old(events) <= events
      ensures (forall k | 0 <= k < KEY_CNT :: !old(down[k])) && (forall a: nat | a < ABS_CNT :: !Centers(a)) && !old(dirty) ==>
                events == old(events)
    {
      hide Last, Alternates;
      LastBits(events);
      var any := ReleaseKeys();
      var axis := CenterAxes();
      any := any || axis;
      CentersDeclared();
      LastBits(events);
      if any || dirty {
        EmitOther(SYN);
      }
    }

    lemma CentersDeclared()
      requires Shape()
      ensures forall a: nat | Centers(a) :: a < ABS_CNT
    {}

    method ReleaseKeys() returns (any: bool)
      requires Valid()
      modifies this`dirty, this`events, down
      ensures Valid() && old(events) <= events && (forall k | 0 <= k < KEY_CNT :: !down[k])
      ensures any == (events != old(events)) && (!any ==> dirty == old(dirty))
      ensures forall a :: Last(events, EV_ABS, a) == old(Last(events, EV_ABS, a))
      ensures (forall k | 0 <= k < KEY_CNT :: !old(down[k])) ==> !any
    {
      hide Last, Alternates;
      any := false;
      for k := 0 to KEY_CNT
        invariant Valid() && old(events) <= events && any == (events != old(events)) && (!any ==> dirty == old(dirty))
        invariant forall i | 0 <= i < k :: !down[i]
        invariant forall i | k <= i < KEY_CNT :: down[i] == old(down[i])
        invariant any ==> exists i | 0 <= i < k :: old(down[i])
        invariant forall a :: Last(events, EV_ABS, a) == old(Last(events, EV_ABS, a))
      {
        if down[k] {
          EmitKey(k, false);
          any := true;
        }
      }
    }

    method CenterAxes() returns (any: bool)
      requires Valid()
      modifies this`dirty, this`events
      ensures Valid() && old(events) <= events
      ensures any == (events != old(events)) && (!any ==> dirty == old(dirty))
      ensures forall a: nat | a < ABS_CNT && Centers(a) :: Last(events, EV_ABS, a) == 0
      ensures forall a: nat | !Centers(a) :: Last(events, EV_ABS, a) == old(Last(events, EV_ABS, a))
      ensures (forall a: nat | a < ABS_CNT :: !Centers(a)) ==> !any
    {
      hide Last, Alternates, Centers;
      any := false;
      for a := 0 to ABS_CNT
        invariant Valid() && old(events) <= events && any == (events != old(events)) && (!any ==> dirty == old(dirty))
        invariant forall i: nat | i < a && Centers(i) :: Last(events, EV_ABS, i) == 0
        invariant forall i: nat | i >= a || !Centers(i) :: Last(events, EV_ABS, i) == old(Last(events, EV_ABS, i))
        invariant any ==> exists i: nat | i < a :: Centers(i)
      {
        if Centers(a) {
          EmitOther(Event(EV_ABS, a, 0));
          any := true;
        }
      }
    }
  }

  lemma LastIsBit(es: seq<Event>, k: nat)
    requires Alternates(es, k)
    ensures Last(es, EV_KEY, k) in {0, 1}
  {
    PairedUp(es, k);
  }

  lemma LastBits(es: seq<Event>)
    ensures forall k: nat | Alternates(es, k) :: Last(es, EV_KEY, k) in {0, 1}
  {
    forall k: nat | Alternates(es, k)
      ensures Last(es, EV_KEY, k) in {0, 1}
    {
      PairedUp(es, k);
    }
  }
}
