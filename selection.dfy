/**
  The linked selection of dataVis.js: the ordered array `selectedDataPoints`
  (at most ten records, compared by object identity) and the dictionary
  `colorAssignments` from a record's identifier to its palette colour.
  `Toggle` and `LegendRemoval` state one user action on the pair as a value;
  the class `SelectionSet` performs the same actions in place, as the page does.
*/
module Selection {
  import opened Options
  import opened JsArray
  import opened Cells
  import opened Dataset

  /** At most this many records can be selected at once. */
  const MaxSelected: nat := 10

  type Color = string

  /** `d3.schemeCategory10`, the palette selection colours are drawn from. */
  const Palette: seq<Color> := ["#1f77b4", "#ff7f0e", "#2ca02c", "#d62728", "#9467bd",
                                "#8c564b", "#e377c2", "#7f7f7f", "#bcbd22", "#17becf"]

  /** The fill of a scatterplot mark that is not selected. */
  const UnselectedColor: Color := "#888"

  /**
    A record as a JavaScript object. Two rows with equal content are still two
    objects, so the row takes part in identity exactly as `===` does.
  */
  datatype Point = Point(row: nat, record: Record)

  /** The pair (`selectedDataPoints`, `colorAssignments`). */
  datatype SelState = SelState(points: seq<Point>, colors: map<Ident, Color>)

  /** What a toggle did; `Rejected` is the "Maximum of 10 points" alert. */
  datatype Outcome = Added | Rejected | Removed

  /** The state after `clear()` and at page load. */
  const Empty: SelState := SelState([], map[])

  /** The identifiers of the selected records. */
  function IdsOf(points: seq<Point>): set<Ident> {
    set p | p in points :: Identifier(p.record)
  }

  /** `colorAssignments[id]` is truthy. */
  predicate HasColor(colors: map<Ident, Color>, id: Ident) {
    id in colors && colors[id] != ""
  }

  /**
    The selection invariant: at most ten records, none twice, colours only for
    identifiers of selected records, every colour from the palette, and no two
    identifiers sharing a colour.
  */
  ghost predicate Valid(s: SelState) {
    && |s.points| <= MaxSelected
    && NoDuplicates(s.points)
    && s.colors.Keys <= IdsOf(s.points)
    && DistinctPaletteColors(s.colors)
  }

  /** Every assigned colour is a palette colour, and no two identifiers share one. */
  ghost predicate DistinctPaletteColors(colors: map<Ident, Color>) {
    && (forall id :: id in colors ==> colors[id] in Palette)
    && (forall a, b :: a in colors && b in colors && a != b ==> colors[a] != colors[b])
  }

  /** Assigning a colour nobody uses, from the palette, keeps colours distinct. */
  lemma AssignFreeColor(colors: map<Ident, Color>, id: Ident, c: Color)
    requires DistinctPaletteColors(colors) && c in Palette && c !in colors.Values
    ensures DistinctPaletteColors(colors[id := c])
  {
  }

  /** `isSelected(p)`: `selectedDataPoints.some((selected) => selected === p)`. */
  function IsSelected(s: SelState, p: Point): (r: bool)
    ensures r <==> p in s.points
  {
    Any(s.points, x => x == p)
  }

  /** `d3.schemeCategory10.find((color) => !usedColors.includes(color))`. */
  function FreeColor(used: set<Color>): (r: Option<Color>)
    ensures r.None? <==> forall k :: 0 <= k < |Palette| ==> Palette[k] in used
    ensures r.Some? ==> r.value !in used
    ensures r.Some? ==> exists k :: 0 <= k < |Palette| && Palette[k] == r.value &&
                                    forall j :: 0 <= j < k ==> Palette[j] in used
  {
    Find(Palette, c => c !in used)
  }

  /**
    The colour given to a newly selected identifier: the first free palette
    colour, or else `colorScale(keys % 10)`, which is modelled as the palette
    entry at that position (the branch is unreachable, see ChooseColorIsFirstFree).
  */
  function ChooseColor(colors: map<Ident, Color>): (c: Color)
    ensures c in Palette
  {
    match FreeColor(colors.Values)
    case Some(c) => c
    case None => Palette[|colors.Keys| % |Palette|]
  }

  /** `selectedDataPoints.findIndex((selected) => selected === p)`. */
  function IndexOf(points: seq<Point>, p: Point): (i: int)
    ensures -1 <= i < |points|
    ensures i == -1 <==> p !in points
    ensures i >= 0 ==> points[i] == p && p !in points[..i]
  {
    FindIndex(points, x => x == p)
  }

  /** `points.splice(i, 1)`: the entry at `i` is dropped, the others keep their order. */
  function RemoveAt(points: seq<Point>, i: nat): (r: seq<Point>)
    requires i < |points|
    ensures |r| == |points| - 1
    ensures forall j :: 0 <= j < i ==> r[j] == points[j]
    ensures forall j :: i <= j < |r| ==> r[j] == points[j + 1]
  {
    points[..i] + points[i + 1..]
  }

  /**
    `toggleDataPointSelection(p)` as a transition: a selected record is removed
    and its identifier's colour deleted; an unselected one is appended while
    fewer than ten are selected, keeping its identifier's colour or receiving
    the first free one; otherwise nothing changes and the user is alerted.
  */
  function Toggle(s: SelState, p: Point): (r: (SelState, Outcome))
    ensures p !in s.points && |s.points| < MaxSelected ==>
      && r.1 == Added
      && r.0.points == s.points + [p]
      && (HasColor(s.colors, Identifier(p.record)) ==> r.0.colors == s.colors)
      && (!HasColor(s.colors, Identifier(p.record)) ==>
            r.0.colors == s.colors[Identifier(p.record) := ChooseColor(s.colors)])
    ensures p !in s.points && |s.points| >= MaxSelected ==> r == (s, Rejected)
    ensures p in s.points ==>
      && r.1 == Removed
      && r.0.points == RemoveAt(s.points, IndexOf(s.points, p))
      && r.0.colors == s.colors - {Identifier(p.record)}
  {
    var index := IndexOf(s.points, p);
    if index == -1 then
      if |s.points| < MaxSelected then
        var id := Identifier(p.record);
        var colors := if HasColor(s.colors, id) then s.colors else s.colors[id := ChooseColor(s.colors)];
        (SelState(s.points + [p], colors), Added)
      else
        (s, Rejected)
    else
      var removed := s.points[index];
      (SelState(RemoveAt(s.points, index), s.colors - {Identifier(removed.record)}), Removed)
  }

  /**
    The legend's ✕ handler for the entry of `p`: remove it if it is still
    selected, otherwise do nothing. On a selected record it is exactly a toggle.
  */
  function LegendRemoval(s: SelState, p: Point): (r: SelState)
    ensures p in s.points ==> r == Toggle(s, p).0 && r.colors == s.colors - {Identifier(p.record)}
    ensures p !in s.points ==> r == s
  {
    if IsSelected(s, p) then Toggle(s, p).0 else s
  }

  /** A run of clicks, oldest first. */
  function ToggleAll(s: SelState, ps: seq<Point>): SelState {
    if ps == [] then s else Toggle(ToggleAll(s, ps[..|ps| - 1]), ps[|ps| - 1]).0
  }

  /** The palette holds ten different colours. */
  lemma PaletteDistinct()
    ensures NoDuplicates(Palette) && |set c | c in Palette| == |Palette| == 10
    ensures UnselectedColor !in Palette
  {
    DistinctCard(Palette);
  }

  /**
    With fewer than ten identifiers coloured some palette colour is free, so a
    new selection always gets the first free colour and never the fallback.
  */
  lemma ChooseColorIsFirstFree(colors: map<Ident, Color>)
    requires |colors| < |Palette|
    ensures FreeColor(colors.Values).Some?
    ensures ChooseColor(colors) == FreeColor(colors.Values).value
  {
    if FreeColor(colors.Values).None? {
      PaletteDistinct();
      assert (set c | c in Palette) <= colors.Values;
      SubsetCard((set c | c in Palette), colors.Values);
      ValuesCard(colors);
      assert false;
    }
  }

  /** Removing a selected record leaves every other selected record, and no copy of it. */
  lemma RemovalKeepsOthers(s: SelState, p: Point)
    requires NoDuplicates(s.points) && p in s.points
    ensures NoDuplicates(Toggle(s, p).0.points)
    ensures forall q :: q in Toggle(s, p).0.points <==> q in s.points && q != p
  {
    var i := IndexOf(s.points, p);
    var t := RemoveAt(s.points, i);
    forall a, b | 0 <= a < b < |t| ensures t[a] != t[b] {
      var a' := if a < i then a else a + 1;
      var b' := if b < i then b else b + 1;
      assert t[a] == s.points[a'] && t[b] == s.points[b'];
    }
    forall q ensures q in t <==> q in s.points && q != p {
      if q in s.points && q != p {
        var j :| 0 <= j < |s.points| && s.points[j] == q;
        if j < i { assert t[j] == q; } else { assert t[j - 1] == q; }
      }
      if q in t {
        var j :| 0 <= j < |t| && t[j] == q;
        if j < i { assert q == s.points[j]; } else { assert q == s.points[j + 1]; }
      }
    }
  }

  /** There are no more identifiers than selected records. */
  lemma {:induction false} IdsOfCard(points: seq<Point>)
    ensures |IdsOf(points)| <= |points|
  {
    if points != [] {
      var init := points[..|points| - 1];
      IdsOfCard(init);
      assert IdsOf(points) == IdsOf(init) + {Identifier(points[|points| - 1].record)};
    }
  }

  /** Deselecting keeps the selection invariant. */
  lemma RemoveKeepsValid(s: SelState, p: Point)
    requires Valid(s) && p in s.points
    ensures Valid(Toggle(s, p).0)
  {
    var t := Toggle(s, p).0;
    RemovalKeepsOthers(s, p);
    assert t.colors == s.colors - {Identifier(p.record)};
    forall k | k in t.colors ensures k in IdsOf(t.points) {
      var q :| q in s.points && Identifier(q.record) == k;
      assert q != p;
    }
  }

  /** Selecting with room left keeps the selection invariant. */
  lemma AddKeepsValid(s: SelState, p: Point)
    requires Valid(s) && p !in s.points && |s.points| < MaxSelected
    ensures Valid(Toggle(s, p).0)
  {
    var t := Toggle(s, p).0;
    var id := Identifier(p.record);
    assert t.points == s.points + [p];
    assert IdsOf(t.points) == IdsOf(s.points) + {id};
    forall a, b | 0 <= a < b < |t.points| ensures t.points[a] != t.points[b] {
      if b == |s.points| { assert t.points[a] in s.points; }
    }
    if !HasColor(s.colors, id) {
      IdsOfCard(s.points);
      SubsetCard(s.colors.Keys, IdsOf(s.points));
      assert |s.colors| == |s.colors.Keys|;
      ChooseColorIsFirstFree(s.colors);
      AssignFreeColor(s.colors, id, ChooseColor(s.colors));
      assert t.colors == s.colors[id := ChooseColor(s.colors)];
    } else {
      assert t.colors == s.colors;
    }
  }

  /** Every toggle keeps the selection invariant. */
  lemma ToggleKeepsValid(s: SelState, p: Point)
    requires Valid(s)
    ensures Valid(Toggle(s, p).0)
  {
    if p in s.points {
      RemoveKeepsValid(s, p);
    } else if |s.points| < MaxSelected {
      AddKeepsValid(s, p);
    }
  }

  /**
    Capacity: from a valid state (the empty one included) every run of clicks
    keeps the invariant, so never more than ten records are selected.
  */
  lemma {:induction false} ToggleAllKeepsValid(s: SelState, ps: seq<Point>)
    requires Valid(s)
    ensures Valid(ToggleAll(s, ps))
    ensures |ToggleAll(s, ps).points| <= MaxSelected
  {
    if ps != [] {
      ToggleAllKeepsValid(s, ps[..|ps| - 1]);
      ToggleKeepsValid(ToggleAll(s, ps[..|ps| - 1]), ps[|ps| - 1]);
    }
  }

  /** A run of clicks split in two is the second part played after the first. */
  lemma {:induction false} ToggleAllAppend(s: SelState, a: seq<Point>, b: seq<Point>)
    ensures ToggleAll(s, a + b) == ToggleAll(ToggleAll(s, a), b)
  {
    if b == [] {
      assert a + b == a;
    } else {
      var init := b[..|b| - 1];
      assert (a + b)[..|a + b| - 1] == a + init;
      ToggleAllAppend(s, a, init);
    }
  }

  /** The two parts of a duplicate-free run are duplicate-free and share no entry. */
  lemma SplitDistinct(ps: seq<Point>, k: nat)
    requires NoDuplicates(ps) && k <= |ps|
    ensures NoDuplicates(ps[..k]) && NoDuplicates(ps[k..])
    ensures forall p :: p in ps[k..] ==> p !in ps[..k]
  {
    assert forall i :: 0 <= i < k ==> ps[..k][i] == ps[i];
    assert forall i :: 0 <= i < |ps| - k ==> ps[k..][i] == ps[k + i];
  }

  /** What a toggle does to the array alone: splice out a selected record, else push while there is room. */
  ghost function TogglePoints(points: seq<Point>, p: Point): seq<Point> {
    if p in points then RemoveAt(points, IndexOf(points, p))
    else if |points| < MaxSelected then points + [p]
    else points
  }

  /** The array after a run of clicks, oldest first. */
  ghost function PointsAfter(points: seq<Point>, ps: seq<Point>): seq<Point> {
    if ps == [] then points else TogglePoints(PointsAfter(points, ps[..|ps| - 1]), ps[|ps| - 1])
  }

  /** The colour map never decides which records a run of clicks leaves selected. */
  lemma {:induction false} ToggleAllPoints(s: SelState, ps: seq<Point>)
    ensures ToggleAll(s, ps).points == PointsAfter(s.points, ps)
  {
    if ps != [] {
      ToggleAllPoints(s, ps[..|ps| - 1]);
    }
  }

  /**
    While there is room, clicking records that are neither selected nor
    repeated appends each of them in click order.
  */
  lemma AcceptAll(s: SelState, ps: seq<Point>)
    requires |s.points| + |ps| <= MaxSelected
    requires NoDuplicates(ps) && forall p :: p in ps ==> p !in s.points
    ensures ToggleAll(s, ps).points == s.points + ps
  {
    ToggleAllPoints(s, ps);
    AcceptAllPoints(s.points, ps);
  }

  /** AcceptAll on the array alone. */
  lemma {:induction false} AcceptAllPoints(points: seq<Point>, ps: seq<Point>)
    requires |points| + |ps| <= MaxSelected
    requires NoDuplicates(ps) && forall p :: p in ps ==> p !in points
    ensures PointsAfter(points, ps) == points + ps
  {
    if ps != [] {
      var init, last := ps[..|ps| - 1], ps[|ps| - 1];
      assert NoDuplicates(init) && (forall p :: p in init ==> p !in points) && last !in points + init by {
        SplitDistinct(ps, |ps| - 1);
        assert ps[|ps| - 1..] == [last];
        assert forall p :: p in init ==> p in ps;
      }
      AcceptAllPoints(points, init);
      assert ps == init + [last];
    }
  }

  /** With ten records selected, clicking records that are not selected changes nothing. */
  lemma {:induction false} RejectAll(s: SelState, ps: seq<Point>)
    requires |s.points| >= MaxSelected
    requires forall p :: p in ps ==> p !in s.points
    ensures ToggleAll(s, ps) == s
  {
    if ps != [] {
      var init := ps[..|ps| - 1];
      assert forall p :: p in init ==> p in ps;
      RejectAll(s, init);
    }
  }

  /** PointsAfter of a run split in two is the second part played after the first. */
  lemma {:induction false} PointsAfterAppend(points: seq<Point>, a: seq<Point>, b: seq<Point>)
    ensures PointsAfter(points, a + b) == PointsAfter(PointsAfter(points, a), b)
  {
    if b == [] {
      assert a + b == a;
    } else {
      assert (a + b)[..|a + b| - 1] == a + b[..|b| - 1];
      PointsAfterAppend(points, a, b[..|b| - 1]);
    }
  }

  /** RejectAll on the array alone. */
  lemma {:induction false} RejectAllPoints(points: seq<Point>, ps: seq<Point>)
    requires |points| >= MaxSelected
    requires forall p :: p in ps ==> p !in points
    ensures PointsAfter(points, ps) == points
  {
    if ps != [] {
      assert forall p :: p in ps[..|ps| - 1] ==> p in ps;
      RejectAllPoints(points, ps[..|ps| - 1]);
    }
  }

  /** FirstTenAccepted on the array alone. */
  lemma FirstTenPoints(ps: seq<Point>)
    requires NoDuplicates(ps)
    ensures PointsAfter([], ps) == ps[..if |ps| < MaxSelected then |ps| else MaxSelected]
  {
    if |ps| <= MaxSelected {
      AcceptAllPoints([], ps);
      assert [] + ps == ps[..|ps|];
    } else {
      var accepted, rest := ps[..MaxSelected], ps[MaxSelected..];
      assert PointsAfter([], ps) == PointsAfter(PointsAfter([], accepted), rest) by {
        assert ps == accepted + rest;
        PointsAfterAppend([], accepted, rest);
      }
      assert PointsAfter([], accepted) == accepted by {
        SplitDistinct(ps, MaxSelected);
        AcceptAllPoints([], accepted);
        assert [] + accepted == accepted;
      }
      assert PointsAfter(accepted, rest) == accepted by {
        SplitDistinct(ps, MaxSelected);
        RejectAllPoints(accepted, rest);
      }
    }
  }

  /**
    Clicking distinct records in turn on an empty selection accepts the first
    ten in click order and rejects every later one.
  */
  lemma FirstTenAccepted(ps: seq<Point>)
    requires NoDuplicates(ps)
    ensures ToggleAll(Empty, ps).points == ps[..if |ps| < MaxSelected then |ps| else MaxSelected]
  {
    ToggleAllPoints(Empty, ps);
    FirstTenPoints(ps);
  }

  /** Appending an unselected record and toggling it again removes that last entry. */
  lemma AddThenRemove(s: SelState, p: Point)
    requires p !in s.points && |s.points| < MaxSelected
    ensures Toggle(Toggle(s, p).0, p).0.points == s.points
    ensures Toggle(Toggle(s, p).0, p).0.colors == Toggle(s, p).0.colors - {Identifier(p.record)}
  {
    var t := Toggle(s, p).0;
    var i := IndexOf(t.points, p);
    assert i == |s.points|;
    assert RemoveAt(t.points, i) == s.points;
  }

  /**
    Selecting and at once deselecting a record whose identifier had no colour
    restores the selection and the colour map exactly.
  */
  lemma ToggleTwiceRestores(s: SelState, p: Point)
    requires p !in s.points && |s.points| < MaxSelected
    requires Identifier(p.record) !in s.colors
    ensures Toggle(s, p).1 == Added
    ensures Toggle(Toggle(s, p).0, p) == (s, Removed)
  {
    AddThenRemove(s, p);
    var id := Identifier(p.record);
    var t := Toggle(s, p);
    assert t.0.colors == s.colors[id := ChooseColor(s.colors)];
    UpdateThenDelete(s.colors, id, ChooseColor(s.colors));
  }

  /** Adding a fresh key and deleting it again gives the map back. */
  lemma UpdateThenDelete<K, V>(m: map<K, V>, k: K, v: V)
    requires k !in m
    ensures m[k := v] - {k} == m
  {
  }

  /**
    Two different records that share an identifier (the same truthy `Year`,
    say) share one colour entry, so adding and then removing the second one
    deletes the colour the first one is still using: the first stays selected
    with no colour left.
  */
  lemma SharedIdentifierLosesColour(s: SelState, p: Point, q: Point)
    requires q in s.points && p !in s.points && |s.points| < MaxSelected
    requires Identifier(p.record) == Identifier(q.record)
    ensures q in Toggle(Toggle(s, p).0, p).0.points
    ensures Identifier(q.record) !in Toggle(Toggle(s, p).0, p).0.colors
  {
    AddThenRemove(s, p);
  }

  /** The selection and colour map of the page, updated in place by its handlers. */
  class SelectionSet {
    var points: seq<Point>
    var colors: map<Ident, Color>

    /** Page load: nothing selected, no colours assigned. */
    constructor ()
      ensures State() == Empty && Valid(State())
    {
      points := [];
      colors := map[];
    }

    /** The pair of arrays as a value. */
    function State(): SelState
      reads this
    {
      SelState(points, colors)
    }

    /** `toggleDataPointSelection`: push/splice the array, assign/delete the colour. */
    method ToggleDataPointSelection(p: Point) returns (outcome: Outcome)
      modifies this
      ensures State() == Toggle(old(State()), p).0
      ensures outcome == Toggle(old(State()), p).1
      ensures Valid(old(State())) ==> Valid(State())
    {
      var selected, assignments := points, colors;
      var index := IndexOf(selected, p);
      if index == -1 {
        if |selected| < MaxSelected {
          selected := selected + [p];
          var identifier := Identifier(p.record);
          if !HasColor(assignments, identifier) {
            assignments := assignments[identifier := ChooseColor(assignments)];
          }
          outcome := Added;
        } else {
          outcome := Rejected;
        }
      } else {
        var removedPoint := selected[index];
        selected := RemoveAt(selected, index);
        assignments := assignments - {Identifier(removedPoint.record)};
        outcome := Removed;
      }
      if Valid(State()) {
        ToggleKeepsValid(State(), p);
      }
      points, colors := selected, assignments;
    }

    /** The legend's ✕ click handler for the entry showing `p`. */
    method RemoveFromLegend(p: Point)
      modifies this
      ensures State() == LegendRemoval(old(State()), p)
      ensures Valid(old(State())) ==> Valid(State())
    {
      ghost var before := State();
      var index := IndexOf(points, p);
      if index != -1 {
        var removedPoint := points[index];
        points := RemoveAt(points, index);
        colors := colors - {Identifier(removedPoint.record)};
      }
      if Valid(before) && p in before.points {
        ToggleKeepsValid(before, p);
      }
    }

    /** `clear()` before a new file is loaded: empty selection, empty colour map. */
    method Clear()
      modifies this
      ensures State() == Empty && Valid(State())
    {
      points := [];
      colors := map[];
    }
  }
}
