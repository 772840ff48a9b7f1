/**
 * The floating chat widget (ChatbotWidget.jsx): the API prefix it hands to
 * the chat controller, the three panel sizes and the open/closed state.
 */
module Widget {
  import opened Wrappers
  import opened Text
  import opened Endpoints

  /**
   * `String(cfgApiBase || '').replace(/\/$/, '').replace(/\/api$/, '')`:
   * one trailing slash, then one trailing `/api`, removed from the configured
   * API base; `None` stands for a null or undefined configuration.
   */
  function BasePrefix(cfg: Option<string>): (r: string)
    ensures cfg.None? ==> r == ""
    ensures var t := DropTrailingSlash(cfg.GetOr(""));
      (EndsWith(t, "/api") ==> r + "/api" == t) && (!EndsWith(t, "/api") ==> r == t)
  {
    var noSlash := DropTrailingSlash(cfg.GetOr(""));
    if EndsWith(noSlash, "/api") then noSlash[..|noSlash| - 4] else noSlash
  }

  /** The prefix is the configured base without a trailing `/`, `/api` or `/api/`. */
  lemma BasePrefixStrips(cfg: Option<string>)
    ensures var s, r := cfg.GetOr(""), BasePrefix(cfg);
      s == r || s == r + "/" || s == r + "/api" || s == r + "/api/"
  {
    var s, r := cfg.GetOr(""), BasePrefix(cfg);
    var t := DropTrailingSlash(s);
    if EndsWith(s, "/") {
      assert t + "/" == s;
      if EndsWith(t, "/api") {
        assert s == r + "/api/";
      }
    }
  }

  /** The base the widget's chat panel sends its requests to. */
  function EffectiveBase(cfg: Option<string>): (r: string)
    ensures EndsWith(r, ApiSuffix)
  {
    Base(Some(BasePrefix(cfg)))
  }

  /**
   * The widget replaces the `/api` at the end of the configured base (with
   * or without a trailing slash) by `/chatbot-api`.
   */
  lemma ApiReplacedByChatbotApi(p: string)
    requires !EndsWith(p, "/") && !EndsWith(p, ApiSuffix)
    ensures EffectiveBase(Some(p + "/api")) == p + ApiSuffix
    ensures EffectiveBase(Some(p + "/api/")) == p + ApiSuffix
  {
    PrefixOfApiBase(p);
    SuffixAppended(p);
  }

  /** The prefix of `p/api` and of `p/api/` is `p`. */
  lemma PrefixOfApiBase(p: string)
    ensures BasePrefix(Some(p + "/api")) == p
    ensures BasePrefix(Some(p + "/api/")) == p
  {
    ApiPath(p);
    StrippedPrefix(p + "/api", p);
    SlashedApiPath(p);
    StrippedPrefix(p + "/api/", p);
  }

  /** Dropping the trailing slash of `p/api/` leaves `p/api`. */
  lemma SlashedApiPath(p: string)
    ensures DropTrailingSlash(p + "/api/") == p + "/api"
  {
    var b := p + "/api/";
    assert b[|b| - 1..] == "/";
    assert b[..|b| - 1] == p + "/api";
  }

  /** A base that is `p/api` once a trailing slash is dropped has prefix `p`. */
  lemma StrippedPrefix(s: string, p: string)
    requires DropTrailingSlash(s) == p + "/api"
    ensures BasePrefix(Some(s)) == p
  {
    var t := p + "/api";
    ApiPath(p);
    assert Some(s).GetOr("") == s;
    assert BasePrefix(Some(s)) == t[..|t| - 4];
  }

  /** `p/api` has no trailing slash, ends with `/api`, and `p` is what precedes it. */
  lemma ApiPath(p: string)
    ensures var a := p + "/api";
      !EndsWith(a, "/") && DropTrailingSlash(a) == a && EndsWith(a, "/api") && a[..|a| - 4] == p
  {
    var a := p + "/api";
    assert !EndsWith(a, "/") by { assert a[|a| - 1] == 'i'; }
    assert a[|a| - 4..] == "/api";
  }

  /** Without a configured base the panel talks to `/chatbot-api` at the root. */
  lemma UnconfiguredBase()
    ensures EffectiveBase(None) == ApiSuffix
  {
    assert !EndsWith("", ApiSuffix);
  }

  /** The sizes the widget uses. */
  predicate IsSize(size: string)
  {
    size == "sm" || size == "md" || size == "lg"
  }

  const InitialSize: string := "md"

  /** The resize button's updater: small, medium, large, and back to small. */
  function CycleSize(size: string): (r: string)
    ensures IsSize(r) && r != size
  {
    if size == "sm" then "md" else if size == "md" then "lg" else "sm"
  }

  /** Three clicks on the resize button bring every size back, through both other sizes. */
  lemma CycleSizePeriod(size: string)
    requires IsSize(size)
    ensures CycleSize(CycleSize(CycleSize(size))) == size
    ensures CycleSize(CycleSize(size)) != size
  {
  }

  /** Every size is reached from every size within two clicks. */
  lemma CycleSizeReachesAll(from: string, to: string)
    requires IsSize(from) && IsSize(to)
    ensures to == from || to == CycleSize(from) || to == CycleSize(CycleSize(from))
  {
  }

  /** The panel's CSS width and height and its minimum width and height in pixels. */
  datatype Dims = Dims(width: string, height: string, minWidth: nat, minHeight: nat)

  const SmallPanel: Dims := Dims("22vw", "38vh", 320, 360)
  const MediumPanel: Dims := Dims("30vw", "50vh", 360, 400)
  const LargePanel: Dims := Dims("45vw", "75vh", 420, 420)

  /** The panel dimensions for a size; any size but `sm` and `lg` gets the medium panel. */
  function PanelDims(size: string): (d: Dims)
    ensures d == SmallPanel || d == MediumPanel || d == LargePanel
    ensures d == SmallPanel <==> size == "sm"
    ensures d == LargePanel <==> size == "lg"
  {
    if size == "sm" then SmallPanel else if size == "lg" then LargePanel else MediumPanel
  }

  /** The panel's minimum is no smaller than that of the size before it in the cycle, except when it wraps to small. */
  predicate NoSmaller(a: Dims, b: Dims)
  {
    a.minWidth <= b.minWidth && a.minHeight <= b.minHeight
  }

  /** Resizing grows the panel's minimum dimensions, except from large back to small. */
  lemma CycleGrowsPanel(size: string)
    requires IsSize(size)
    ensures size != "lg" <==> NoSmaller(PanelDims(size), PanelDims(CycleSize(size)))
  {
  }

  /** The icon on the resize button. */
  datatype Icon = ZoomOutMap | CropSquare | FullscreenExit

  /** The resize button's icon for a size. */
  function SizeIcon(size: string): (i: Icon)
    ensures i == ZoomOutMap <==> size == "sm"
    ensures i == CropSquare <==> size == "md"
  {
    if size == "sm" then ZoomOutMap else if size == "md" then CropSquare else FullscreenExit
  }

  /** The icon shows the exit icon exactly when the next click shrinks the panel. */
  lemma IconAnnouncesShrink(size: string)
    requires IsSize(size)
    ensures SizeIcon(size) == FullscreenExit <==> !NoSmaller(PanelDims(size), PanelDims(CycleSize(size)))
  {
  }

  /** The widget's state: whether the panel is open, and its size. */
  datatype WidgetState = WidgetState(open: bool, size: string)

  const Initial: WidgetState := WidgetState(false, InitialSize)

  /** What the user can do: click the launcher, the close button or the resize button. */
  datatype Action = Launch | Close | Resize

  /** The launcher is shown exactly while the panel is closed. */
  predicate ShowsLauncher(w: WidgetState) { !w.open }

  /** The panel, with the chat inside it, is shown exactly while it is open. */
  predicate ShowsPanel(w: WidgetState) { w.open }

  /**
   * The widget after one action. The launcher exists only while closed and
   * the close and resize buttons only while open, so an action on a
   * control that is not shown changes nothing.
   */
  function Step(w: WidgetState, a: Action): (r: WidgetState)
    ensures a.Launch? && ShowsLauncher(w) ==> ShowsPanel(r) && r.size == w.size
    ensures a.Close? && ShowsPanel(w) ==> ShowsLauncher(r) && r.size == w.size
    ensures a.Resize? && ShowsPanel(w) ==> ShowsPanel(r) && r.size == CycleSize(w.size)
    ensures (a.Launch? && ShowsPanel(w)) || (!a.Launch? && ShowsLauncher(w)) ==> r == w
  {
    match a
    case Launch => if !w.open then w.(open := true) else w
    case Close => if w.open then w.(open := false) else w
    case Resize => if w.open then w.(size := CycleSize(w.size)) else w
  }

  /** The widget after a sequence of actions. */
  function Run(w: WidgetState, actions: seq<Action>): WidgetState
    decreases |actions|
  {
    if actions == [] then w else Run(Step(w, actions[0]), actions[1..])
  }

  /** Starting from one of the three sizes, the size stays one of them whatever the user does. */
  lemma {:induction false} RunKeepsSize(w: WidgetState, actions: seq<Action>)
    requires IsSize(w.size)
    ensures IsSize(Run(w, actions).size)
    decreases |actions|
  {
    if actions != [] {
      RunKeepsSize(Step(w, actions[0]), actions[1..]);
    }
  }

  /**
   * While the launcher is shown only it can be clicked: a closed widget
   * stays exactly as it is until the launcher is clicked.
   */
  lemma {:induction false} ClosedUntilLaunched(w: WidgetState, actions: seq<Action>)
    requires ShowsLauncher(w)
    requires forall k :: 0 <= k < |actions| ==> !actions[k].Launch?
    ensures Run(w, actions) == w
    decreases |actions|
  {
    if actions != [] {
      assert Step(w, actions[0]) == w;
      ClosedUntilLaunched(w, actions[1..]);
    }
  }

  /** The widget starts closed, showing the launcher, with the medium panel size. */
  lemma InitialState()
    ensures ShowsLauncher(Initial) && !ShowsPanel(Initial)
    ensures IsSize(Initial.size) && PanelDims(Initial.size) == MediumPanel && SizeIcon(Initial.size) == CropSquare
  {
  }
}
