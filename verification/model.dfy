/**
  The state of the documentation viewer (the `App` component in src/App.tsx)
  as a value, the events that change it, and the parts of the screen that are
  computed from it.

  The component keeps four pieces of state: the loaded configuration, the
  index of the page on screen, whether the side menu is open, and whether the
  configuration is still being loaded. Every handler of the component is one
  `Event`, and `Step` says what each handler does to the state.
 */
module DocModel {

  /** One page of the documentation; `id` is only ever used as a render key. */
  datatype Page = Page(id: int, title: string, content: string)

  /** The parsed configuration file: a document title and its pages in order. */
  datatype Config = Config(title: string, pages: seq<Page>)

  /** The component state: `config`, `currentPage`, `menuOpen`, `loading`. */
  datatype View = View(config: Config, currentPage: int, menuOpen: bool, loading: bool)

  /** The handlers that change the state. */
  datatype Event =
    | Loaded(parsed: Config)   // the fetch and the parse succeeded
    | LoadFailed               // the fetch or the parse failed
    | Next                     // the "next page" button
    | Prev                     // the "previous page" button
    | ToggleMenu               // the menu button in the header
    | Select(index: int)       // the menu entry at position `index`

  /** A previous/next affordance: absent, or shown with the adjacent page's title. */
  datatype Button = Hidden | Shown(caption: string)

  const DefaultTitle: string := "Documentation"
  const DefaultConfig: Config := Config(DefaultTitle, [])

  /** The state on first render, before the configuration has arrived. */
  const Initial: View := View(DefaultConfig, 0, false, true)

  function Min(a: int, b: int): int { if a <= b then a else b }
  function Max(a: int, b: int): int { if a <= b then b else a }

  /**
    Where the page index may be. With no pages the index stays at 0, which is
    outside the (empty) range of pages; otherwise it is a position in `pages`.
   */
  predicate IndexOk(pages: seq<Page>, i: int) {
    && (|pages| == 0 ==> i == 0)
    && (|pages| > 0 ==> 0 <= i < |pages|)
  }

  /**
    The invariant of every reachable state: the index is where it may be, and
    until loading has finished the configuration is still the default one and
    the menu is closed.
   */
  predicate Invariant(v: View) {
    && IndexOk(v.config.pages, v.currentPage)
    && (v.loading ==> v.config == DefaultConfig && !v.menuOpen)
  }

  /** A handler that settles the configuration request. */
  predicate Settles(e: Event) {
    e.Loaded? || e.LoadFailed?
  }

  /**
    When a handler can run at all. The configuration request is issued once,
    on mount, and settles once (with success or failure) while `loading`
    holds. Until then the component shows only a loading message, which has no
    buttons, so the user handlers run only once loading is over. A menu entry
    exists only while the menu is open, and only for a position in `pages`.
   */
  predicate Enabled(v: View, e: Event)
    ensures Enabled(v, e) ==> (v.loading <==> Settles(e))
    ensures Enabled(v, e) && e.Select? ==> v.menuOpen && 0 <= e.index < |v.config.pages|
    ensures v.loading && Settles(e) ==> Enabled(v, e)
    ensures !v.loading && !Settles(e) && !e.Select? ==> Enabled(v, e)
  {
    match e
    case Loaded(_) => v.loading
    case LoadFailed => v.loading
    case Select(i) => !v.loading && v.menuOpen && 0 <= i < |v.config.pages|
    case _ => !v.loading
  }

  /** What each handler does to the state. */
  function Step(v: View, e: Event): (r: View)
    ensures v.loading || !r.loading
    ensures Enabled(v, e) ==> !r.loading
    ensures !e.Loaded? ==> r.config == v.config
    ensures Invariant(v) && Enabled(v, e) ==> Invariant(r)
  {
    match e
    case Loaded(parsed) => v.(config := parsed, loading := false)
    case LoadFailed => v.(loading := false)
    case Next =>
      if v.currentPage < |v.config.pages| - 1 then v.(currentPage := v.currentPage + 1) else v
    case Prev =>
      if v.currentPage > 0 then v.(currentPage := v.currentPage - 1) else v
    case ToggleMenu => v.(menuOpen := !v.menuOpen)
    case Select(i) => v.(currentPage := i, menuOpen := false)
  }

  // ---------------------------------------------------------------------
  // What is on screen
  // ---------------------------------------------------------------------

  /** `pages[i]?.content || ''`: a missing page reads as the empty text. */
  function ContentAt(pages: seq<Page>, i: int): string {
    if 0 <= i < |pages| then pages[i].content else ""
  }

  /** `pages[i]?.title`: a missing page gives no caption, which renders as nothing. */
  function TitleAt(pages: seq<Page>, i: int): string {
    if 0 <= i < |pages| then pages[i].title else ""
  }

  /** The title of the page on screen. */
  function CurrentTitle(v: View): string {
    TitleAt(v.config.pages, v.currentPage)
  }

  /** The markdown text handed to the renderer. */
  function Content(v: View): (s: string)
    ensures Invariant(v) && |v.config.pages| > 0 ==> s == v.config.pages[v.currentPage].content
    ensures |v.config.pages| == 0 ==> s == ""
  {
    ContentAt(v.config.pages, v.currentPage)
  }

  /** The "previous page" button, labelled with the title of the page before. */
  function PrevButton(v: View): (b: Button)
    ensures b.Shown? <==> v.currentPage > 0
    ensures Invariant(v) && b.Shown? ==>
      0 < v.currentPage < |v.config.pages| && b.caption == v.config.pages[v.currentPage - 1].title
    ensures Invariant(v) && |v.config.pages| == 0 ==> b == Hidden
  {
    if v.currentPage > 0 then Shown(TitleAt(v.config.pages, v.currentPage - 1)) else Hidden
  }

  /** The "next page" button, labelled with the title of the page after. */
  function NextButton(v: View): (b: Button)
    ensures b.Shown? <==> v.currentPage < |v.config.pages| - 1
    ensures Invariant(v) && b.Shown? ==>
      0 <= v.currentPage < |v.config.pages| - 1 && b.caption == v.config.pages[v.currentPage + 1].title
    ensures Invariant(v) && |v.config.pages| == 0 ==> b == Hidden
  {
    if v.currentPage < |v.config.pages| - 1 then Shown(TitleAt(v.config.pages, v.currentPage + 1)) else Hidden
  }

  /** The browser tab title (and the header text): the configuration's title. */
  function DocumentTitle(v: View): (t: string)
    ensures Invariant(v) && v.loading ==> t == DefaultTitle
  {
    v.config.title
  }

  // ---------------------------------------------------------------------
  // One handler at a time
  // ---------------------------------------------------------------------

  /**
    "Next" moves one page forward when there is a page after the current one;
    otherwise (at the last page, or with no pages) nothing changes, so pressing
    it again at the end changes nothing either. Only the index ever changes.
   */
  lemma NextClamps(v: View)
    requires Invariant(v)
    ensures var r := Step(v, Next);
      && Invariant(r)
      && r.config == v.config && r.menuOpen == v.menuOpen && r.loading == v.loading
      && (v.currentPage < |v.config.pages| - 1 ==> r.currentPage == v.currentPage + 1)
      && (v.currentPage >= |v.config.pages| - 1 ==> r == v)
      && Step(r, Next).currentPage == Min(v.currentPage + 2, Max(|v.config.pages| - 1, 0))
  {
  }

  /**
    "Previous" moves one page back when the index is above 0 and otherwise
    changes nothing. Only the index ever changes.
   */
  lemma PrevClamps(v: View)
    requires Invariant(v)
    ensures var r := Step(v, Prev);
      && Invariant(r)
      && r.config == v.config && r.menuOpen == v.menuOpen && r.loading == v.loading
      && (v.currentPage > 0 ==> r.currentPage == v.currentPage - 1)
      && (v.currentPage == 0 ==> r == v)
      && Step(r, Prev).currentPage == Max(v.currentPage - 2, 0)
  {
  }

  /**
    The "next" button is shown exactly when "Next" would move, and its caption is
    the title of the page "Next" moves to.
   */
  lemma NextButtonMatchesNext(v: View)
    requires Invariant(v)
    ensures NextButton(v).Shown? <==> Step(v, Next) != v
    ensures NextButton(v).Shown? ==> NextButton(v).caption == CurrentTitle(Step(v, Next))
  {
  }

  /**
    The "previous" button is shown exactly when "Previous" would move, and its
    caption is the title of the page "Previous" moves to.
   */
  lemma PrevButtonMatchesPrev(v: View)
    requires Invariant(v)
    ensures PrevButton(v).Shown? <==> Step(v, Prev) != v
    ensures PrevButton(v).Shown? ==> PrevButton(v).caption == CurrentTitle(Step(v, Prev))
  {
  }

  /**
    Choosing menu entry `i` shows page `i` and closes the menu; choosing the
    page already on screen only closes the menu.
   */
  lemma SelectShowsPage(v: View, i: int)
    requires Invariant(v) && 0 <= i < |v.config.pages|
    ensures var r := Step(v, Select(i));
      && Invariant(r)
      && r.currentPage == i && !r.menuOpen
      && r.config == v.config && r.loading == v.loading
      && Content(r) == v.config.pages[i].content
      && CurrentTitle(r) == v.config.pages[i].title
      && (i == v.currentPage ==> r == v.(menuOpen := false))
  {
  }

  /** The menu button flips the menu and nothing else; pressing it twice is no change. */
  lemma ToggleFlips(v: View)
    ensures var r := Step(v, ToggleMenu);
      && r.menuOpen == !v.menuOpen
      && r.config == v.config && r.currentPage == v.currentPage && r.loading == v.loading
      && Step(r, ToggleMenu) == v
  {
  }

  /**
    A successful load installs the parsed configuration as it is, ends loading,
    and leaves the first page (if any) on screen with the menu closed.
   */
  lemma LoadedInstallsConfig(v: View, c: Config)
    requires Invariant(v) && v.loading
    ensures var r := Step(v, Loaded(c));
      && Invariant(r) && !r.loading
      && r.config == c && r.currentPage == 0 && !r.menuOpen
      && DocumentTitle(r) == c.title
      && Content(r) == (if |c.pages| > 0 then c.pages[0].content else "")
      && PrevButton(r) == Hidden
      && NextButton(r) == (if |c.pages| > 1 then Shown(c.pages[1].title) else Hidden)
  {
  }

  /**
    A failed load ends loading and keeps the configuration; from the initial
    state that leaves an empty document titled "Documentation".
   */
  lemma LoadFailedKeepsConfig(v: View)
    ensures var r := Step(v, LoadFailed);
      && !r.loading
      && r.config == v.config && r.currentPage == v.currentPage && r.menuOpen == v.menuOpen
    ensures var r := Step(Initial, LoadFailed);
      && Invariant(r)
      && r.config.pages == [] && DocumentTitle(r) == "Documentation"
      && Content(r) == "" && PrevButton(r) == Hidden && NextButton(r) == Hidden
  {
  }

  /** With no pages, nothing is read out of range: the text is empty and both buttons are hidden. */
  lemma EmptyPagesShowNothing(v: View)
    requires Invariant(v) && |v.config.pages| == 0
    ensures Content(v) == "" && PrevButton(v) == Hidden && NextButton(v) == Hidden
    ensures Step(v, Next) == v && Step(v, Prev) == v
  {
  }
}
