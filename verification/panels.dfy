/** The visibility of the four statistics panels of the React app
    (src/App.js): each can be toggled on its own, and the floating button
    hides them all or shows them all. */
module Panels {

  datatype PanelName = OverviewPanel | AveragesPanel | TimesPanel | ChartPanel

  datatype Visibility = Visibility(overview: bool, averages: bool, times: bool, chart: bool)

  /** Every panel starts visible. */
  const Initial: Visibility := Visibility(true, true, true, true)

  const Hidden: Visibility := Visibility(false, false, false, false)

  function Visible(v: Visibility, p: PanelName): bool
  {
    match p
    case OverviewPanel => v.overview
    case AveragesPanel => v.averages
    case TimesPanel => v.times
    case ChartPanel => v.chart
  }

  /** Two visibility maps that agree on every panel are the same. */
  lemma {:induction false} VisibilityExtensional(a: Visibility, b: Visibility)
    requires forall p :: Visible(a, p) == Visible(b, p)
    ensures a == b
  {
    assert Visible(a, OverviewPanel) == Visible(b, OverviewPanel);
    assert Visible(a, AveragesPanel) == Visible(b, AveragesPanel);
    assert Visible(a, TimesPanel) == Visible(b, TimesPanel);
    assert Visible(a, ChartPanel) == Visible(b, ChartPanel);
  }

  /** `togglePanel`: the named panel flips, the others keep their state. */
  function TogglePanel(v: Visibility, p: PanelName): (r: Visibility)
    ensures Visible(r, p) == !Visible(v, p)
    ensures forall q :: q != p ==> Visible(r, q) == Visible(v, q)
  {
    match p
    case OverviewPanel => v.(overview := !v.overview)
    case AveragesPanel => v.(averages := !v.averages)
    case TimesPanel => v.(times := !v.times)
    case ChartPanel => v.(chart := !v.chart)
  }

  /** `Object.values(panelVisibility).some(visible => visible)`. */
  function AnyVisible(v: Visibility): (b: bool)
    ensures b <==> exists p :: Visible(v, p)
  {
    assert Visible(v, OverviewPanel) == v.overview;
    assert Visible(v, AveragesPanel) == v.averages;
    assert Visible(v, TimesPanel) == v.times;
    assert Visible(v, ChartPanel) == v.chart;
    v.overview || v.averages || v.times || v.chart
  }

  /** `toggleAllPanels`: if any panel is visible all are hidden, otherwise
      all are shown. */
  function ToggleAll(v: Visibility): (r: Visibility)
    ensures (exists p :: Visible(v, p)) ==> forall p :: !Visible(r, p)
    ensures (forall p :: !Visible(v, p)) ==> forall p :: Visible(r, p)
  {
    if AnyVisible(v) then Hidden else Initial
  }

  /** Toggling a panel twice restores it. */
  lemma {:induction false} ToggleTwice(v: Visibility, p: PanelName)
    ensures TogglePanel(TogglePanel(v, p), p) == v
  {
    VisibilityExtensional(TogglePanel(TogglePanel(v, p), p), v);
  }

  /** Toggling two panels gives the same result in either order. */
  lemma {:induction false} ToggleCommutes(v: Visibility, p: PanelName, q: PanelName)
    ensures TogglePanel(TogglePanel(v, p), q) == TogglePanel(TogglePanel(v, q), p)
  {
    VisibilityExtensional(TogglePanel(TogglePanel(v, p), q), TogglePanel(TogglePanel(v, q), p));
  }

  /** The floating button alternates between all shown and all hidden; from a
      mixed state one press hides everything. */
  lemma {:induction false} ToggleAllAlternates(v: Visibility)
    ensures ToggleAll(Initial) == Hidden && ToggleAll(Hidden) == Initial
    ensures ToggleAll(ToggleAll(v)) == Initial || ToggleAll(ToggleAll(v)) == Hidden
    ensures AnyVisible(v) ==> ToggleAll(ToggleAll(v)) == Initial
  {
  }
}
