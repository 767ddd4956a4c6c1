/** The boot-style mouse: relative motion cut into reports of at most 127
    units an axis, buttons with a click kept visible. */
module HidMouse {
  const MAX_SPLIT: nat := 32
  const STEP: nat := 127

  /** v cut to -m..m. */
  function Within(v: int, m: nat): int { if v < 0 - m then 0 - m else if v > m then m else v }

  datatype Report = Report(buttons: set<nat>, dx: int, dy: int, wheel: int, hwheel: int) {
    predicate Fits() { -127 <= dx <= 127 && -127 <= dy <= 127 && -127 <= wheel <= 127 && -127 <= hwheel <= 127 }
  }

  /** Motion along the four axes. */
  datatype Motion = Motion(dx: int, dy: int, wheel: int, hwheel: int) {
    function Plus(r: Report): Motion { Motion(dx + r.dx, dy + r.dy, wheel + r.wheel, hwheel + r.hwheel) }
    predicate Zero() { dx == 0 && dy == 0 && wheel == 0 && hwheel == 0 }
    function Clamped(m: nat): Motion { Motion(Within(dx, m), Within(dy, m), Within(wheel, m), Within(hwheel, m)) }
  }

  /** What the target adds up. */
  function Total(rs: seq<Report>): Motion {
    if rs == [] then Motion(0, 0, 0, 0) else Total(rs[..|rs| - 1]).Plus(rs[|rs| - 1])
  }

  lemma TotalSnoc(rs: seq<Report>, r: Report)
    ensures Total(rs + [r]) == Total(rs).Plus(r)
  {
    assert (rs + [r])[..|rs|] == rs;
  }

  /** The button bit of a code: left, right, middle, side, extra. */
  function ButtonBit(code: nat): (b: int)
    ensures b == if 0x110 <= code < 0x115 then code - 0x110 else -1
  {
    match code
    case 0x110 => 0
    case 0x111 => 1
    case 0x112 => 2
    case 0x113 => 3
    case 0x114 => 4
    case _ => -1
  }

  /** One axis after n reports: what was sent, and the next step. */
  lemma AxisStep(v: int, n: nat)
    ensures var left := v - Within(v, STEP * n);
      && Within(v, STEP * n) + Within(left, STEP) == Within(v, STEP * (n + 1))
  {}

  function Minus(m: Motion, k: Motion): Motion { Motion(m.dx - k.dx, m.dy - k.dy, m.wheel - k.wheel, m.hwheel - k.hwheel) }

  class Mouse {
    var buttons: set<nat>
    var dx: int
    var dy: int
    var wheel: int
    var hwheel: int
    var lastButtons: set<nat>          // of the last report
    var dirty: bool
    var reports: seq<Report>           // all reports written
    ghost var pressedAt: map<nat, nat> // number of reports at the press of a held button
    ghost var unseen: set<nat>         // buttons the last report did not show when they were pressed

    function Left(): Motion
      reads this`dx, this`dy, this`wheel, this`hwheel
    {
      Motion(dx, dy, wheel, hwheel)
    }

    ghost predicate Traced()
      reads this`buttons, this`lastButtons, this`reports, this`pressedAt, this`unseen
    {
      && lastButtons == (if reports == [] then {} else reports[|reports| - 1].buttons)
      && forall b <- buttons ::
           && b in pressedAt && pressedAt[b] <= |reports|
           && (forall i | pressedAt[b] <= i < |reports| :: b in reports[i].buttons)
           && (b in unseen && b in lastButtons ==> pressedAt[b] < |reports|)
           && (b !in unseen ==> b in lastButtons)
    }

    ghost predicate Valid()
      reads this
    {
      Traced() && (!dirty ==> buttons == lastButtons && Left().Zero())
    }

    constructor ()
      ensures Valid() && reports == [] && buttons == {} && Left().Zero()
    {
      buttons, dx, dy, wheel, hwheel := {}, 0, 0, 0, 0;
      lastButtons, dirty, reports, pressedAt, unseen := {}, false, [], map[], {};
    }

    /** Takes at most 127 units off each axis. */
    method TakeReport() returns (r: Report, more: bool)
      modifies this`dx, this`dy, this`wheel, this`hwheel
      ensures r.Fits() && r.buttons == buttons && more == !Left().Zero()
      ensures Left().Plus(r) == old(Left())
      ensures r.dx == Within(old(dx), STEP) && r.dy == Within(old(dy), STEP)
      ensures r.wheel == Within(old(wheel), STEP) && r.hwheel == Within(old(hwheel), STEP)
    {
      r := Report(buttons, Within(dx, STEP), Within(dy, STEP), Within(wheel, STEP), Within(hwheel, STEP));
      dx, dy, wheel, hwheel := dx - r.dx, dy - r.dy, wheel - r.wheel, hwheel - r.hwheel;
      more := dx != 0 || dy != 0 || wheel != 0 || hwheel != 0;
    }

    /** As many reports as the motion takes, 32 at most: together they move
        the target by exactly the motion, up to 4064 units an axis. */
    method Flush() returns (ghost rs: seq<Report>)
      requires Traced()
      modifies this`dx, this`dy, this`wheel, this`hwheel, this`lastButtons, this`dirty, this`reports
      ensures Valid() && !dirty && Left().Zero() && lastButtons == buttons
      ensures reports == old(reports) + rs && 0 < |rs| <= MAX_SPLIT
      ensures forall i | 0 <= i < |rs| :: rs[i].Fits() && rs[i].buttons == buttons
      ensures Total(rs) == old(Left()).Clamped(STEP * MAX_SPLIT)
      ensures |rs| < MAX_SPLIT ==> Total(rs) == old(Left())
      ensures |rs| > 1 ==> old(Left()).Clamped(STEP * (|rs| - 1)) != old(Left())
    {
      rs := SendMotion();
      dx, dy, wheel, hwheel := 0, 0, 0, 0;
      lastButtons := buttons;
      dirty := false;
    }

    method SendMotion() returns (ghost rs: seq<Report>)
      modifies this`dx, this`dy, this`wheel, this`hwheel, this`reports
      ensures reports == old(reports) + rs && 0 < |rs| <= MAX_SPLIT
      ensures forall i | 0 <= i < |rs| :: rs[i].Fits() && rs[i].buttons == buttons
      ensures Total(rs) == old(Left()).Clamped(STEP * |rs|) == old(Left()).Clamped(STEP * MAX_SPLIT)
      ensures |rs| < MAX_SPLIT ==> Total(rs) == old(Left())
      ensures |rs| > 1 ==> old(Left()).Clamped(STEP * (|rs| - 1)) != old(Left())
    {
      hide Total;
      ghost var m := Left();
      rs := [];
      assert Total([]) == Motion(0, 0, 0, 0) by { TotalNil(); }
      var i := 0;
      var more := true;
      while more && i < MAX_SPLIT
        invariant 0 <= i == |rs| <= MAX_SPLIT && reports == old(reports) + rs
        invariant forall k | 0 <= k < i :: rs[k].Fits() && rs[k].buttons == buttons
        invariant Total(rs) == m.Clamped(STEP * i) && Left() == Minus(m, m.Clamped(STEP * i))
        invariant more == (i == 0 || !Left().Zero())
        invariant i > 1 ==> m.Clamped(STEP * (i - 1)) != m
        decreases MAX_SPLIT - i
      {
        var r;
        AxisStep(m.dx, i);
        AxisStep(m.dy, i);
        AxisStep(m.wheel, i);
        AxisStep(m.hwheel, i);
        TotalSnoc(rs, Report(buttons, Within(dx, STEP), Within(dy, STEP), Within(wheel, STEP), Within(hwheel, STEP)));
        r, more := TakeReport();
        reports := reports + [r];
        rs := rs + [r];
        i := i + 1;
      }
    }

    method Syn()
      requires Valid()
      modifies this`dx, this`dy, this`wheel, this`hwheel, this`lastButtons, this`dirty, this`reports
      ensures Valid() && !dirty && lastButtons == buttons
      ensures old(reports) <= reports && (!old(dirty) ==> reports == old(reports))
      ensures old(dirty) ==> Left().Zero() && reports != old(reports)
      ensures old(dirty) ==> Total(reports[|old(reports)|..]) == old(Left()).Clamped(STEP * MAX_SPLIT)
    {
      if dirty {
        var rs := Flush();
        assert reports[|old(reports)|..] == rs;
      }
    }

    method Move(x: int, y: int, w: int, hw: int)
      requires Valid()
      modifies this`dx, this`dy, this`wheel, this`hwheel, this`dirty
      ensures Valid() && dirty && Left() == Motion(old(dx) + x, old(dy) + y, old(wheel) + w, old(hwheel) + hw)
    {
      dx, dy, wheel, hwheel := dx + x, dy + y, wheel + w, hwheel + hw;
      dirty := true;
    }

    /** By the time a release takes effect the press has been reported, if and
        only if the button was absent from the last report when it was
        pressed, or a report was written since. */
    method OnButton(code: nat, v: int)
      requires Valid()
      modifies this
      ensures Valid() && old(reports) <= reports
      ensures v != 0 || ButtonBit(code) !in old(buttons) || ButtonBit(code) in old(lastButtons) ==>
                reports == old(reports) && Left() == old(Left())
      ensures var b := ButtonBit(code);
        && buttons == (if b < 0 || v !in {0, 1} then old(buttons) else if v == 1 then old(buttons) + {b} else old(buttons) - {b})
        && (b >= 0 && v == 0 && b in old(buttons) ==>
              && b in old(pressedAt)
              && (ReportedSince(b, old(pressedAt)) <==> b in old(unseen) || old(pressedAt)[b] < |old(reports)|))
        && (b >= 0 && v == 1 && b !in old(buttons) ==>
              b in pressedAt && pressedAt[b] == |reports| && (b in unseen <==> b !in old(lastButtons)))
    {
      var b := ButtonBit(code);
      if b < 0 || (v != 0 && v != 1) { return; }
      if (b in buttons) == (v == 1) { return; }
      if v == 0 && b !in lastButtons {
        var rs := Flush();
      }
      if v == 1 {
        buttons := buttons + {b};
        pressedAt := pressedAt[b := |reports|];
        unseen := if b in lastButtons then unseen - {b} else unseen + {b};
      } else {
        buttons := buttons - {b};
      }
      dirty := true;
    }

    ghost predicate ReportedSince(b: nat, at: map<nat, nat>)
      reads this`reports
    {
      b in at && at[b] < |reports| && b in reports[at[b]].buttons
    }
  }

  lemma TotalNil()
    ensures Total([]) == Motion(0, 0, 0, 0)
  {}
}
