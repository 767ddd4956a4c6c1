/** The boot keyboard: six key slots and a modifier byte that always spell
    out exactly the keys held, and the report replay on top of it. */
module HidKeyboard {
  import opened HidMap

  datatype Result = Same | Changed | NoUsage | Rollover

  predicate IsModifier(u: nat) { 0xE0 <= u <= 0xE7 }

  /** The usages the report descriptor covers. */
  predicate Usable(u: nat) { u != 0 && (u <= USAGE_MAX || IsModifier(u)) }

  /** A boot report: the bits of the modifier byte and the six slots. */
  datatype Report = Report(mods: set<nat>, keys: seq<nat>) {
    /** The target sees key `code` down. */
    predicate Shows(code: nat) {
      if IsModifier(Usage(code)) then (Usage(code) - 0xE0) in mods else Usage(code) in keys
    }
  }

  function Padded(held: seq<nat>): (keys: seq<nat>)
    requires |held| <= 6
    ensures |keys| == 6 && forall i | 0 <= i < 6 :: keys[i] == if i < |held| then held[i] else 0
  {
    held + seq(6 - |held|, i => 0)
  }

  predicate Distinct(s: seq<nat>) { forall i, j | 0 <= i < j < |s| :: s[i] != s[j] }

  function Without(s: seq<nat>, i: nat): seq<nat> requires i < |s| { s[..i] + s[i + 1..] }

  class Keyboard {
    const keys: array<nat>             // six slots
    const down: array<bool>            // by key code
    var mods: set<nat>                 // the bits of the modifier byte
    ghost var held: seq<nat>           // usages in the slots, oldest first

    ghost predicate Slots()
      reads this`held, keys
    {
      && keys.Length == 6 && |held| <= 6 && keys[..] == Padded(held)
      && Distinct(held) && 0 !in held
    }

    /** Code c is held. */
    ghost predicate Held(c: nat)
      reads down
    {
      c < down.Length && down[c]
    }

    /** Slots and modifiers are the usages of the held keys. */
    ghost predicate Spells()
      reads this`held, this`mods, down
    {
      && down.Length == KEY_CNT
      && (forall c: nat | Held(c) :: Usable(Usage(c)))
      && (forall c: nat | Held(c) && !IsModifier(Usage(c)) :: Usage(c) in held)
      && (forall c: nat | Held(c) && IsModifier(Usage(c)) :: (Usage(c) - 0xE0) in mods)
      && (forall u <- held :: Held(Code(u)) && Usage(Code(u)) == u && !IsModifier(u))
      && (forall b <- mods :: Held(Code(0xE0 + b)) && Usage(Code(0xE0 + b)) == 0xE0 + b && b < 8)
    }

    ghost predicate Valid()
      reads this`held, this`mods, keys, down
    {
      Sized() && Slots() && Spells()
    }

    predicate Sized() { keys.Length == 6 && down.Length == KEY_CNT }

    constructor ()
      ensures Valid() && fresh(keys) && fresh(down)
      ensures forall c: nat :: !Held(c)
      ensures Now() == Report({}, Padded([]))
    {
      keys := new nat[6](i => 0);
      down := new bool[KEY_CNT](i => false);
      mods, held := {}, [];
    }

    function Now(): (r: Report)
      requires keys.Length == 6
      reads this`mods, keys
    {
      Report(mods, keys[..])
    }

    /** The report shows a key exactly when it is held. */
    lemma ReportIsHeld(c: nat)
      requires Valid() && Usable(Usage(c))
      ensures Now().Shows(c) <==> Held(c)
    {
      Inverse(c);
      if Usage(c) in keys[..] {
        var i :| 0 <= i < 6 && keys[..][i] == Usage(c);
        assert held[i] == Usage(c);
      }
      if i :| 0 <= i < |held| && held[i] == Usage(c) {
        assert keys[..][i] == Usage(c);
      }
    }

    lemma ShowsHeld(c: nat)
      requires Valid() && Held(c)
      ensures Now().Shows(c)
    {
      ReportIsHeld(c);
    }

    lemma ShowsOnlyHeld(c: nat)
      requires Valid() && Accepts(c) && !Held(c)
      ensures !Now().Shows(c)
    {
      ReportIsHeld(c);
    }

    predicate Holds(c: nat)
      requires down.Length == KEY_CNT
      reads down
      ensures Holds(c) == Held(c)
    {
      c < KEY_CNT && down[c]
    }

    /** The first free slot gets u. */
    method Press(u: nat) returns (ok: bool)
      requires Slots() && u != 0 && u !in held
      modifies this`held, keys
      ensures Slots() && ok == (|old(held)| < 6)
      ensures held == if ok then old(held) + [u] else old(held)
    {
      var i := 0;
      while i < 6 && keys[i] != 0
        invariant 0 <= i <= |held|
      {
        assert keys[i] == keys[..][i];
        i := i + 1;
      }
      assert i < 6 ==> keys[i] == keys[..][i];
      ok := i < 6;
      if ok {
        keys[i] := u;
        held := held + [u];
        assert keys[..] == Padded(held);
      }
    }

    /** u leaves its slot, the later ones move up. */
    method Release(u: nat)
      requires Slots() && u in held
      modifies this`held, keys
      ensures Slots() && u !in held
      ensures exists i | 0 <= i < |old(held)| :: old(held)[i] == u && held == Without(old(held), i)
    {
      var i := 0;
      while i < 6 && keys[i] != u
        invariant 0 <= i <= 6 && forall k | 0 <= k < i && k < |held| :: held[k] != u
      {
        assert keys[i] == keys[..][i];
        i := i + 1;
      }
      assert i < |held|;
      assert keys[..][i] == held[i] == u;
      forall k | i <= k < 5 {
        keys[k] := keys[k + 1];
      }
      keys[5] := 0;
      held := Without(held, i);
      assert keys[..] == Padded(held);
    }

    predicate Accepts(code: nat)
    {
      code < KEY_CNT && Usable(Usage(code))
    }

    ghost function Answer(code: nat, value: int): Result
      reads this`held, down
    {
      if !Accepts(code) then NoUsage
      else if value !in {0, 1} || (value == 1) == Held(code) then Same
      else if value == 1 && !IsModifier(Usage(code)) && |held| == 6 then Rollover
      else Changed
    }

    /** One key event. Repeats, double presses, releases of keys not held,
        unknown keys and a seventh key change nothing. */
    method Key(code: nat, value: int) returns (r: Result)
      requires Valid()
      modifies this`held, this`mods, keys, down
      ensures Valid()
      ensures r == old(Answer(code, value))
      ensures forall c: nat :: Held(c) == if r == Changed && c == code then value == 1 else old(Held(c))
      ensures r != Changed ==> Now() == old(Now())
      ensures r == Changed && !IsModifier(Usage(code)) ==>
        |held| == |old(held)| + if value == 1 then 1 else -1
      ensures IsModifier(Usage(code)) ==> held == old(held)
    {
      hide Usage, Code;
      if code >= KEY_CNT { return NoUsage; }
      var u := Usage(code);
      if !Usable(u) { return NoUsage; }
      if value != 0 && value != 1 { return Same; }
      if (value == 1) == down[code] { return Same; }
      InverseAll();
      if IsModifier(u) {
        mods := if value == 1 then mods + {u - 0xE0} else mods - {u - 0xE0};
      } else if value == 1 {
        var ok := Press(u);
        if !ok { return Rollover; }
      } else {
        Release(u);
      }
      down[code] := value == 1;
      r := Changed;
    }

    /** Everything up. */
    method Reset()
      requires Valid()
      modifies this`held, this`mods, keys, down
      ensures Valid() && held == [] && Now() == Report({}, Padded([]))
      ensures forall c: nat :: !Held(c)
    {
      forall i | 0 <= i < keys.Length { keys[i] := 0; }
      forall i | 0 <= i < down.Length { down[i] := false; }
      mods, held := {}, [];
      assert keys[..] == Padded([]);
    }
  }

  lemma InverseAll()
    ensures forall c: nat | Usage(c) != 0 :: Code(Usage(c)) == c
  {
    forall c: nat | Usage(c) != 0
      ensures Code(Usage(c)) == c
    {
      Inverse(c);
    }
  }

  /** Key events in, reports out: one report for each SYN after a change, and
      an early one when a key would be released before its press was seen. */
  class Replay {
    const kbd: Keyboard
    var last: Report                   // the last report written
    var dirty: bool
    var reports: seq<Report>           // all reports written
    ghost var pressedAt: map<nat, nat> // number of reports at the press of a held key
    ghost var unseen: set<nat>         // keys the last report did not show when they were pressed

    ghost predicate Traced()
      reads this`last, this`reports, this`pressedAt, this`unseen, kbd.down
    {
      forall c: nat | kbd.Held(c) ::
        && c in pressedAt && pressedAt[c] <= |reports|
        && (forall i | pressedAt[c] <= i < |reports| :: reports[i].Shows(c))
        && (c in unseen && last.Shows(c) ==> pressedAt[c] < |reports|)
        && (c !in unseen ==> last.Shows(c))
    }

    ghost predicate Valid()
      reads this, kbd, kbd.keys, kbd.down
    {
      Consistent() && (!dirty ==> last == kbd.Now())
    }

    ghost predicate Consistent()
      reads this`last, this`reports, this`pressedAt, this`unseen, kbd, kbd.keys, kbd.down
    {
      && kbd.Valid() && Traced()
      && (reports != [] ==> last == reports[|reports| - 1])
      && (reports == [] ==> last == Report({}, Padded([])))
    }

    constructor ()
      ensures Valid() && fresh(kbd) && fresh(kbd.keys) && fresh(kbd.down)
      ensures reports == [] && forall c: nat :: !kbd.Held(c)
    {
      kbd := new Keyboard();
      last, dirty, reports := Report({}, Padded([])), false, [];
      pressedAt, unseen := map[], {};
    }

    method Flush()
      requires Consistent()
      modifies this`last, this`dirty, this`reports
      ensures Valid() && !dirty && last == kbd.Now() && reports == old(reports) + [last]
    {
      hide Usage, Code, Keyboard.Slots, Keyboard.Spells;
      last := kbd.Now();
      reports := reports + [last];
      dirty := false;
      forall c: nat | kbd.Held(c)
        ensures last.Shows(c)
      {
        kbd.ShowsHeld(c);
      }
    }

    method Syn()
      requires Valid()
      modifies this`last, this`dirty, this`reports
      ensures Valid() && last == kbd.Now()
      ensures reports == if old(dirty) then old(reports) + [last] else old(reports)
    {
      if dirty {
        Flush();
      }
    }

    /** A report since the press of the key shows it. */
    ghost predicate Reported(code: nat, pressedAt: map<nat, nat>)
      reads this`reports
    {
      code in pressedAt && pressedAt[code] < |reports| && reports[pressedAt[code]].Shows(code)
    }

    /** By the time a release takes effect the press has been reported, if and
        only if the key was absent from the last report when it was pressed,
        or a report was written since. */
    method OnKey(code: nat, v: int) returns (r: Result)
      requires Valid()
      modifies this, kbd, kbd.keys, kbd.down
      ensures Valid() && r == old(kbd.Answer(code, v))
      ensures forall c: nat :: kbd.Held(c) == if r == Changed && c == code then v == 1 else old(kbd.Held(c))
      ensures r == Changed && !IsModifier(Usage(code)) ==> |kbd.held| == |old(kbd.held)| + if v == 1 then 1 else -1
      ensures IsModifier(Usage(code)) ==> |kbd.held| == |old(kbd.held)|
      ensures r == Changed && v == 0 ==>
        && code in old(pressedAt)
        && (Reported(code, old(pressedAt)) <==> code in old(unseen) || old(pressedAt)[code] < |old(reports)|)
      ensures r == Changed && v == 1 ==>
        code in pressedAt && pressedAt[code] == |reports| && (code in unseen <==> !old(last).Shows(code))
      ensures reports == if v == 0 && old(kbd.Held(code)) && !old(last).Shows(code) then old(reports) + [last] else old(reports)
      ensures |reports| == |old(reports)| ==> last == old(last)
      ensures dirty == (r == Changed || (old(dirty) && |reports| == |old(reports)|))
    {
      hide Usage, Code, Keyboard.Slots, Keyboard.Spells;
      if v == 0 && kbd.Holds(code) && !last.Shows(code) {
        Flush();
      }
      r := kbd.Key(code, v);
      if r == Changed {
        dirty := true;
        if v == 1 {
          pressedAt := pressedAt[code := |reports|];
          unseen := if last.Shows(code) then unseen - {code} else unseen + {code};
        }
      }
    }

    /** The client lets go of everything, or leaves. */
    method ReleaseAll()
      requires Valid()
      modifies this`last, this`dirty, this`reports, kbd, kbd.keys, kbd.down
      ensures Valid() && last == Report({}, Padded([])) && reports == old(reports) + [last] && !dirty
      ensures forall c: nat :: !kbd.Held(c)
    {
      hide Usage, Code, Keyboard.Slots, Keyboard.Spells;
      kbd.Reset();
      Flush();
    }

    /** A tap within one frame shows on the target as down, then up. */
    method Tap(code: nat)
      requires Valid() && kbd.Accepts(code) && !kbd.Held(code) && !last.Shows(code)
      requires IsModifier(Usage(code)) || |kbd.held| < 6
      modifies this, kbd, kbd.keys, kbd.down
      ensures Valid() && !kbd.Held(code)
      ensures |reports| == |old(reports)| + 2 && reports[|old(reports)|].Shows(code) && !last.Shows(code)
    {
      hide Usage, Code, Keyboard.Slots, Keyboard.Spells, Report.Shows, Traced;
      var r := OnKey(code, 1);
      r := OnKey(code, 0);
      Syn();
      kbd.ShowsOnlyHeld(code);
    }

    /** The condition matters: a key the last report still shows can be let go
        and tapped within one frame without the target noticing the tap. */
    method DoubleTap(code: nat)
      requires Valid() && kbd.Accepts(code) && kbd.Held(code) && last.Shows(code)
      modifies this, kbd, kbd.keys, kbd.down
      ensures Valid() && |reports| == |old(reports)| + 1 && !last.Shows(code)
    {
      hide Usage, Code, Keyboard.Spells, Report.Shows, Traced;
      var r := OnKey(code, 0);
      r := OnKey(code, 1);
      r := OnKey(code, 0);
      Syn();
      kbd.ShowsOnlyHeld(code);
    }
  }
}
