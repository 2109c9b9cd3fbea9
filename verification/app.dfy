/**
  The `App` component as an object: its four state hooks are fields, and each
  handler is a method that updates them in one atomic step. Every method is
  tied to `Step`, the value-level description of the same handler, so the
  lemmas proved about `Step` and its runs hold of the component too.
 */
module DocApp {
  import opened DocModel

  class App {
    var config: Config
    var currentPage: int
    var menuOpen: bool
    var loading: bool

    /** The component state as a value. */
    function State(): View
      reads this
    {
      View(config, currentPage, menuOpen, loading)
    }

    ghost predicate Valid()
      reads this
    {
      Invariant(State())
    }

    /** First render: default configuration, first page, menu closed, loading. */
    constructor ()
      ensures Valid()
      ensures State() == Initial
      ensures config.title == "Documentation" && config.pages == []
      ensures currentPage == 0 && !menuOpen && loading
    {
      config := DefaultConfig;
      currentPage := 0;
      menuOpen := false;
      loading := true;
    }

    /** The request settled with a parsed configuration, taken as it is. */
    method LoadSucceeded(parsed: Config)
      requires Valid() && loading
      modifies this`config, this`loading
      ensures Valid()
      ensures config == parsed && !loading
      ensures currentPage == 0
      ensures State() == Step(old(State()), Loaded(parsed))
    {
      config := parsed;
      loading := false;
    }

    /** The request or the parse failed: the configuration stays, loading ends. */
    method LoadFailed()
      requires Valid() && loading
      modifies this`loading
      ensures Valid()
      ensures !loading
      ensures State() == Step(old(State()), DocModel.LoadFailed)
    {
      loading := false;
    }

    /** The "next page" handler: forward one page unless already at the last one. */
    method NextPage()
      requires Valid() && !loading
      modifies this`currentPage
      ensures Valid()
      ensures old(currentPage) < |config.pages| - 1 ==> currentPage == old(currentPage) + 1
      ensures old(currentPage) >= |config.pages| - 1 ==> currentPage == old(currentPage)
      ensures State() == Step(old(State()), Next)
    {
      if currentPage < |config.pages| - 1 {
        currentPage := currentPage + 1;
      }
    }

    /** The "previous page" handler: back one page unless already at the first one. */
    method PrevPage()
      requires Valid() && !loading
      modifies this`currentPage
      ensures Valid()
      ensures old(currentPage) > 0 ==> currentPage == old(currentPage) - 1
      ensures old(currentPage) <= 0 ==> currentPage == old(currentPage)
      ensures State() == Step(old(State()), Prev)
    {
      if currentPage > 0 {
        currentPage := currentPage - 1;
      }
    }

    /** The header's menu button. */
    method ToggleMenu()
      requires Valid() && !loading
      modifies this`menuOpen
      ensures Valid()
      ensures menuOpen == !old(menuOpen)
      ensures State() == Step(old(State()), DocModel.ToggleMenu)
    {
      menuOpen := !menuOpen;
    }

    /** The menu entry for the page at position `index`. */
    method SelectPage(index: int)
      requires Valid() && !loading && menuOpen && 0 <= index < |config.pages|
      modifies this`currentPage, this`menuOpen
      ensures Valid()
      ensures currentPage == index && !menuOpen
      ensures Content(State()) == config.pages[index].content
      ensures State() == Step(old(State()), Select(index))
    {
      currentPage := index;
      menuOpen := false;
    }
  }
}
