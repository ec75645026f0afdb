/** Where the first chunk of headers goes at boot: `find_space_in_area`. */
module BootPlacement {
  import opened Machine

  datatype Area = Area(addr: nat, len: nat) {
    function End(): nat { addr + len }

    /** The address is in the area, or just behind it. */
    predicate Touches(x: nat) { addr <= x <= addr + len }
  }

  function RoundUp(a: nat): (r: nat)
    ensures r % PAGE == 0 && a <= r < a + PAGE
  {
    if a % PAGE == 0 then a else a + PAGE - a % PAGE
  }

  /** `size` bytes from `a` are strictly clear of the area. */
  predicate ClearOf(a: nat, size: nat, area: Area) { a > area.End() || a + size < area.addr }

  /** That is: the place has no address in common with the area, where both include the one behind them. */
  lemma ClearOfIs(a: nat, size: nat, area: Area)
    ensures ClearOf(a, size, area) <==> !exists x :: Area(a, size).Touches(x) && area.Touches(x)
  {
    if a <= area.addr <= a + size {
      assert Area(a, size).Touches(area.addr);
    } else if area.addr <= a <= area.End() {
      assert Area(a, size).Touches(a);
    }
  }

  /** Index of the first area that is in the way of `size` bytes from `a`, or the number of areas. */
  function Blocking(areas: seq<Area>, a: nat, size: nat): (i: nat)
    ensures i <= |areas| && (i < |areas| ==> !ClearOf(a, size, areas[i]))
    ensures forall j :: 0 <= j < i ==> ClearOf(a, size, areas[j])
  {
    if areas == [] then 0
    else if !ClearOf(a, size, areas[0]) then 0
    else
      var i := Blocking(areas[1..], a, size);
      assert forall j :: 1 <= j < i + 1 ==> areas[j] == areas[1..][j - 1];
      i + 1
  }

  predicate Candidate(areas: seq<Area>, a: nat, size: nat) {
    a % PAGE == 0 && forall i :: 0 <= i < |areas| ==> ClearOf(a, size, areas[i])
  }

  /** The place where the search stops: nothing is in the way there, or nothing fits behind what is. */
  function Reached(areas: seq<Area>, location: nat, end: nat, size: nat): (a: nat)
    ensures a % PAGE == 0 && a >= location
    decreases end - location
  {
    var start := RoundUp(location);
    var i := Blocking(areas, start, size);
    if i == |areas| || areas[i].End() + size >= end then start
    else Reached(areas, areas[i].End() + 1, end, size)
  }

  /** The address that is returned; 0 is the null pointer. */
  function FindSpace(areas: seq<Area>, location: nat, end: nat, size: nat): nat {
    var a := Reached(areas, location, end, size);
    if Blocking(areas, a, size) == |areas| then a else 0
  }

  /** No sum passes 4 GiB. */
  method FindSpaceInArea(areas: seq<Area>, location: nat, end: nat, size: nat) returns (r: nat)
    requires end < SPACE && location + size + PAGE < SPACE
    requires forall i :: 0 <= i < |areas| ==> areas[i].End() + 1 + size + PAGE < SPACE
    ensures r == FindSpace(areas, location, end, size)
    ensures r != 0 ==> r % 4096 == 0 && r >= location
    ensures r != 0 ==> forall i, x :: 0 <= i < |areas| && Area(r, size).Touches(x) ==> !areas[i].Touches(x)
    decreases end - location
  {
    var start := RoundUp(location);
    FoundIsClear(areas, location, end, size);
    for i := 0 to |areas|
      invariant Blocking(areas, start, size) >= i
    {
      if start > areas[i].End() || start + size < areas[i].addr {
        continue;
      } else if areas[i].End() + size < end {
        r := FindSpaceInArea(areas, areas[i].End() + 1, end, size);
        return;
      } else {
        return 0;
      }
    }
    return start;
  }

  /** The place found shares nothing with any area, in addresses. */
  lemma FoundIsClear(areas: seq<Area>, location: nat, end: nat, size: nat)
    ensures var r := FindSpace(areas, location, end, size);
            && (r != 0 ==> r % PAGE == 0 && r >= location)
            && (r != 0 ==> forall i, x :: 0 <= i < |areas| && Area(r, size).Touches(x) ==> !areas[i].Touches(x))
  {
    var r := FindSpace(areas, location, end, size);
    if r != 0 {
      forall i | 0 <= i < |areas|
        ensures !exists x :: Area(r, size).Touches(x) && areas[i].Touches(x)
      {
        ClearOfIs(r, size, areas[i]);
      }
    }
  }

  lemma RoundUpLeast(a: nat, c: nat)
    requires c % PAGE == 0 && a <= c
    ensures RoundUp(a) <= c
  {
  }

  /** No candidate is skipped: each is at or behind the place reached; and where an area is in the way
      of that place, each is behind it, and ends past the memory available. */
  lemma {:induction false} NoneSkipped(areas: seq<Area>, location: nat, end: nat, size: nat, c: nat)
    requires location <= c && Candidate(areas, c, size)
    ensures var a := Reached(areas, location, end, size);
            && a <= c && (Blocking(areas, a, size) < |areas| ==> c + size > end)
    decreases end - location
  {
    var start := RoundUp(location);
    var i := Blocking(areas, start, size);
    RoundUpLeast(location, c);
    if i < |areas| {
      assert ClearOf(c, size, areas[i]);
      if areas[i].End() + size < end {
        NoneSkipped(areas, areas[i].End() + 1, end, size, c);
      }
    }
  }

  /** A result is the lowest place from `location` up that is aligned and strictly clear of every area,
      whatever their order and overlaps; without one, no such place but 0 fits. */
  lemma FindsLowest(areas: seq<Area>, location: nat, end: nat, size: nat)
    ensures var r := FindSpace(areas, location, end, size);
            && (r != 0 ==> r >= location && Candidate(areas, r, size)
                           && forall c :: location <= c < r ==> !Candidate(areas, c, size))
            && (r == 0 ==> forall c :: location <= c && c != 0 && Candidate(areas, c, size) && c + size <= end ==>
                             location == 0 && Candidate(areas, 0, size))
  {
    forall c | location <= c && Candidate(areas, c, size)
      ensures var a := Reached(areas, location, end, size);
              a <= c && (Blocking(areas, a, size) < |areas| ==> c + size > end)
    {
      NoneSkipped(areas, location, end, size, c);
    }
  }

  /** The end of the memory is checked only when the search moves on: the result passes it exactly when
      nothing is in the way at the place reached, and that place is too close to the end, or behind it.
      After the first place this is by less than a page. */
  lemma {:induction false} PassesTheEnd(areas: seq<Area>, location: nat, end: nat, size: nat)
    ensures var (r, a) := (FindSpace(areas, location, end, size), Reached(areas, location, end, size));
            && (r != 0 && r + size > end <==> a != 0 && Candidate(areas, a, size) && a + size > end)
            && (Candidate(areas, RoundUp(location), size) ==> r == RoundUp(location))
            && (r + size >= end + PAGE ==> r == 0 || r == RoundUp(location))
    decreases end - location
  {
    var start := RoundUp(location);
    var i := Blocking(areas, start, size);
    if i < |areas| && areas[i].End() + size < end {
      PassesTheEnd(areas, areas[i].End() + 1, end, size);
    }
  }

  /** The result fits in the available memory exactly when some place does. */
  lemma FitsIfAnyDoes(areas: seq<Area>, location: nat, end: nat, size: nat)
    requires location > 0
    ensures var r := FindSpace(areas, location, end, size);
            r != 0 && r + size <= end <==> exists c :: location <= c && c + size <= end && Candidate(areas, c, size)
  {
    var r := FindSpace(areas, location, end, size);
    FindsLowest(areas, location, end, size);
    if c :| location <= c && c + size <= end && Candidate(areas, c, size) {
      assert r != 0 && r <= c;
    }
  }

  /** The instance: one byte of memory at the second page, and two pages are said to fit. */
  lemma FoundPastTheEnd()
    ensures FindSpace([], PAGE, PAGE + 1, 2 * PAGE) == PAGE
  {
    assert RoundUp(PAGE) == PAGE;
  }

  /** The search goes on behind an area in the way, at the next page after the byte behind it; where
      exactly the size is left there, it gives up. */
  lemma GoesOnBehind()
    ensures FindSpace([Area(0x5000, 0x1000)], 0x4000, 0x10000, 0x2000) == 0x7000
    ensures FindSpace([Area(0x5000, 0x1000)], 0x4000, 0x8000, 0x2000) == 0
    ensures FindSpace([Area(0x5000, 0x1000)], 0x4000, 0x8001, 0x2000) == 0x7000
  {
    var areas := [Area(0x5000, 0x1000)];
    assert Blocking(areas, 0x4000, 0x2000) == 0 && Blocking(areas, 0x7000, 0x2000) == 1;
    assert RoundUp(0x6001) == 0x7000;
  }
}
