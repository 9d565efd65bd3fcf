/**
  The persistent view state kept in the page's URL fragment (`state`,
  `getDefaults`, `getState`, `putState`, js/main.js:42 and 53-74). The JSON
  text itself is not modelled: a descriptor is the already-decoded object,
  with each key either present or absent.
 */
module ViewState {
  import opened Wrappers

  /** `{zoom, center, top, scale}`; `center` is a [lon, lat] array. */
  datatype State = State(zoom: real, center: seq<real>, top: int, scale: real)

  /** A decoded fragment: any subset of the keys of State. */
  datatype Descriptor = Descriptor(zoom: Option<real>, center: Option<seq<real>>, top: Option<int>, scale: Option<real>)

  /** The defaults `getDefaults` installs. */
  function Defaults(): (s: State)
    ensures s.zoom == 3.0 && s.center == [0.0, 30.0] && s.top == 1 && s.scale == 100.0
  {
    State(3.0, [0.0, 30.0], 1, 100.0)
  }

  /** A deep `$.extend` of one array by another: element-wise, the longer length wins. */
  function Overlay(base: seq<real>, over: seq<real>): (r: seq<real>)
    ensures |r| == if |over| < |base| then |base| else |over|
    ensures forall i :: 0 <= i < |over| ==> r[i] == over[i]
    ensures forall i :: |over| <= i < |base| ==> r[i] == base[i]
  {
    if |over| < |base| then over + base[|over|..] else over
  }

  /** `$.extend(true, s, d)`: every key present in `d` overrides, every absent one is kept. */
  function Merge(s: State, d: Descriptor): (r: State)
    ensures r.zoom == d.zoom.GetOr(s.zoom)
    ensures r.top == d.top.GetOr(s.top)
    ensures r.scale == d.scale.GetOr(s.scale)
    ensures d.center.None? ==> r.center == s.center
    ensures d.center.Some? ==> r.center == Overlay(s.center, d.center.value)
  {
    State(
      d.zoom.GetOr(s.zoom),
      if d.center.Some? then Overlay(s.center, d.center.value) else s.center,
      d.top.GetOr(s.top),
      d.scale.GetOr(s.scale))
  }

  /** `getDefaults(); getState();` with the fragment, None when it is empty. */
  function Load(fragment: Option<Descriptor>): State {
    match fragment
    case None => Defaults()
    case Some(d) => Merge(Defaults(), d)
  }

  /** `putState()`: every key of the state is written. */
  function Save(s: State): Descriptor {
    Descriptor(Some(s.zoom), Some(s.center), Some(s.top), Some(s.scale))
  }

  /** With no fragment, the state is exactly the defaults. */
  lemma LoadWithoutFragment()
    ensures Load(None) == State(3.0, [0.0, 30.0], 1, 100.0)
  {
  }

  /** A fragment overrides only the keys it contains; the rest keep their defaults. */
  lemma LoadOverridesOnlyPresentKeys(d: Descriptor)
    ensures Load(Some(d)).zoom == (if d.zoom.Some? then d.zoom.value else 3.0)
    ensures Load(Some(d)).top == (if d.top.Some? then d.top.value else 1)
    ensures Load(Some(d)).scale == (if d.scale.Some? then d.scale.value else 100.0)
    ensures d.center.None? ==> Load(Some(d)).center == [0.0, 30.0]
    ensures d.center.Some? && |d.center.value| >= 2 ==> Load(Some(d)).center == d.center.value
  {
  }

  /** Whatever the fragment, the loaded centre has at least the two default coordinates. */
  lemma LoadKeepsCenter(fragment: Option<Descriptor>)
    ensures |Load(fragment).center| >= 2
  {
  }

  /** Saving a state and loading it back gives the same state. */
  lemma SaveLoadRoundTrip(s: State)
    requires |s.center| >= 2
    ensures Load(Some(Save(s))) == s
  {
    assert Overlay([0.0, 30.0], s.center) == s.center;
  }

  /** Loading, saving and loading again is a fixed point: the fragment written
      back at startup reproduces the state it was written from. */
  lemma ReloadIsFixedPoint(fragment: Option<Descriptor>)
    ensures Load(Some(Save(Load(fragment)))) == Load(fragment)
  {
    LoadKeepsCenter(fragment);
    SaveLoadRoundTrip(Load(fragment));
  }

  /** A descriptor with no keys changes nothing. */
  lemma MergeNothing(s: State)
    ensures Merge(s, Descriptor(None, None, None, None)) == s
  {
  }
}
